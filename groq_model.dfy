/** Ticket classification: one completion request retried on rate limits, the reply parsed
    as JSON (directly, or from its outermost brace span), and the result normalised against
    the closed category and urgency sets. */
module GroqModel {
  import opened Wrappers
  import opened Failures
  import Text
  import Config

  // ---------------------------------------------------------------------------------
  // The completion request and its retry loop

  const MaxAttempts: nat := 5
  const RetryDelaySeconds: nat := 10

  /** What one `client.chat.completions.create` call yields: a reply, whose first choice's
      message content may be null (None); a `RateLimitError`; or any other error. */
  datatype CallOutcome = Reply(content: Option<string>) | RateLimited | Failed(reason: string)

  /** The completion service: its answer to the request whose user message is the first
      argument, at the given attempt (counted from 0). The system prompt, the model name,
      the temperature and the token bound are the same on every call. */
  type Completion = (string, nat) -> CallOutcome

  /** What the retry loop does, in order: calls, and the sleeps after rate limits. */
  datatype Event = Call(attempt: nat) | Sleep(seconds: nat)

  /** The user message: `f"Sujet: {subject}\n\nContenu:\n{body}"`. */
  function UserContent(subject: string, body: string): (r: string)
    ensures |r| == |subject| + |body| + 18
    ensures r[..7] == "Sujet: " && r[7..7 + |subject|] == subject
    ensures r[7 + |subject|..7 + |subject| + 11] == "\n\nContenu:\n" && r[|r| - |body|..] == body
  {
    var r := "Sujet: " + subject + "\n\nContenu:\n" + body;
    assert r[..7] == "Sujet: ";
    assert r[7..7 + |subject|] == subject;
    assert r[7 + |subject|..7 + |subject| + 11] == "\n\nContenu:\n";
    assert r[|r| - |body|..] == body;
    r
  }

  /** The first attempt at or after `from` that is not rate-limited, or MaxAttempts when
      all of them are. */
  function FirstAnswered(complete: Completion, userContent: string, from: nat): (k: nat)
    requires from <= MaxAttempts
    ensures from <= k <= MaxAttempts
    ensures forall j | from <= j < k :: complete(userContent, j).RateLimited?
    ensures k < MaxAttempts ==> !complete(userContent, k).RateLimited?
    decreases MaxAttempts - from
  {
    if from == MaxAttempts || !complete(userContent, from).RateLimited? then from
    else FirstAnswered(complete, userContent, from + 1)
  }

  /** The events of n rate-limited attempts: each call is followed by one sleep. */
  function RateLimitedRounds(n: nat): seq<Event> {
    if n == 0 then [] else RateLimitedRounds(n - 1) + [Call(n - 1), Sleep(RetryDelaySeconds)]
  }

  /** The outcome of the retry loop: the reply content (or the error that propagates),
      and what happened on the way. */
  datatype RetryRun = RetryRun(response: Result<Option<string>, Error>, events: seq<Event>)

  /** The loop stops at the first attempt that is not rate-limited: its reply is the
      response and any other error propagates. When all attempts are rate-limited the
      loop falls through without a response. */
  function Retry(complete: Completion, userContent: string): RetryRun {
    var k := FirstAnswered(complete, userContent, 0);
    if k == MaxAttempts then RetryRun(Failure(NoResponse), RateLimitedRounds(MaxAttempts))
    else if complete(userContent, k).Reply? then
      RetryRun(Success(complete(userContent, k).content), RateLimitedRounds(k) + [Call(k)])
    else RetryRun(Failure(ServiceFailure(complete(userContent, k).reason)), RateLimitedRounds(k) + [Call(k)])
  }

  /** `for attempt in range(5)`: call; on success stop; on a rate limit log and sleep ten
      seconds, then try again; let any other error propagate. */
  method RequestCompletion(complete: Completion, userContent: string)
    returns (response: Result<Option<string>, Error>, events: seq<Event>)
    ensures RetryRun(response, events) == Retry(complete, userContent)
  {
    events := [];
    var attempt := 0;
    while attempt < MaxAttempts
      invariant 0 <= attempt <= MaxAttempts
      invariant FirstAnswered(complete, userContent, attempt) == FirstAnswered(complete, userContent, 0)
      invariant events == RateLimitedRounds(attempt)
    {
      var outcome := complete(userContent, attempt);
      events := events + [Call(attempt)];
      match outcome {
        case Reply(content) =>
          return Success(content), events;
        case Failed(reason) =>
          return Failure(ServiceFailure(reason)), events;
        case RateLimited =>
          events := events + [Sleep(RetryDelaySeconds)];
      }
      attempt := attempt + 1;
    }
    // `response` was never bound: reading it raises
    response := Failure(NoResponse);
  }

  function CallCount(events: seq<Event>): nat {
    if events == [] then 0
    else CallCount(events[..|events| - 1]) + (if events[|events| - 1].Call? then 1 else 0)
  }

  function SleptSeconds(events: seq<Event>): nat {
    if events == [] then 0
    else SleptSeconds(events[..|events| - 1]) + (if events[|events| - 1].Sleep? then events[|events| - 1].seconds else 0)
  }

  /** n rate-limited rounds are calls 0 to n-1, each followed by exactly one ten-second
      sleep. */
  lemma {:induction false} RateLimitedRoundsShape(n: nat)
    ensures |RateLimitedRounds(n)| == 2 * n
    ensures forall j | 0 <= j < n :: RateLimitedRounds(n)[2 * j] == Call(j)
                                  && RateLimitedRounds(n)[2 * j + 1] == Sleep(RetryDelaySeconds)
    ensures CallCount(RateLimitedRounds(n)) == n
    ensures SleptSeconds(RateLimitedRounds(n)) == RetryDelaySeconds * n
  {
    if n > 0 {
      RateLimitedRoundsShape(n - 1);
      var r := RateLimitedRounds(n);
      var p := RateLimitedRounds(n - 1);
      assert r == p + [Call(n - 1), Sleep(RetryDelaySeconds)];
      assert r[..|r| - 1] == p + [Call(n - 1)];
      assert (p + [Call(n - 1)])[..|p|] == p;
    }
  }

  /** The service is called at most five times and the loop stops at the first attempt
      that is not rate-limited; every rate-limited attempt, the fifth included, is followed
      by one ten-second sleep. */
  lemma RetryEvents(complete: Completion, userContent: string)
    ensures var k := FirstAnswered(complete, userContent, 0);
            CallCount(Retry(complete, userContent).events) == (if k < MaxAttempts then k + 1 else MaxAttempts)
    ensures CallCount(Retry(complete, userContent).events) <= MaxAttempts
    ensures SleptSeconds(Retry(complete, userContent).events) == RetryDelaySeconds * FirstAnswered(complete, userContent, 0)
  {
    var k := FirstAnswered(complete, userContent, 0);
    if k < MaxAttempts {
      assert Retry(complete, userContent).events == RateLimitedRounds(k) + [Call(k)];
      AnsweredRound(k);
    } else {
      assert Retry(complete, userContent).events == RateLimitedRounds(MaxAttempts);
      RateLimitedRoundsShape(MaxAttempts);
    }
  }

  /** k rate-limited rounds followed by the call that answered: k + 1 calls and k sleeps. */
  lemma AnsweredRound(k: nat)
    ensures CallCount(RateLimitedRounds(k) + [Call(k)]) == k + 1
    ensures SleptSeconds(RateLimitedRounds(k) + [Call(k)]) == RetryDelaySeconds * k
  {
    RateLimitedRoundsShape(k);
    var p := RateLimitedRounds(k);
    assert (p + [Call(k)])[..|p|] == p;
  }

  /** There is no response at all exactly when all five attempts were rate-limited, which
      costs fifty seconds of sleep. */
  lemma RetryExhaustedIff(complete: Completion, userContent: string)
    ensures Retry(complete, userContent).response == Failure(NoResponse) <==>
              forall j | 0 <= j < MaxAttempts :: complete(userContent, j).RateLimited?
  {
    var k := FirstAnswered(complete, userContent, 0);
    if forall j | 0 <= j < MaxAttempts :: complete(userContent, j).RateLimited? {
      assert k == MaxAttempts;
    }
  }

  /** The response is the reply of the first attempt that is not rate-limited, when that
      attempt answered. */
  lemma RetryAnswerIff(complete: Completion, userContent: string, c: Option<string>)
    ensures Retry(complete, userContent).response == Success(c) <==>
              exists k | 0 <= k < MaxAttempts ::
                && (forall j | 0 <= j < k :: complete(userContent, j).RateLimited?)
                && complete(userContent, k) == Reply(c)
  {
    var k := FirstAnswered(complete, userContent, 0);
    if exists k' | 0 <= k' < MaxAttempts ::
         && (forall j | 0 <= j < k' :: complete(userContent, j).RateLimited?)
         && complete(userContent, k') == Reply(c) {
      var k' :| 0 <= k' < MaxAttempts
                && (forall j | 0 <= j < k' :: complete(userContent, j).RateLimited?)
                && complete(userContent, k') == Reply(c);
      assert k == k';
    }
  }

  /** An error other than a rate limit on the first attempt is raised after that single
      call, with no sleep and no retry. */
  lemma OtherErrorNotRetried(complete: Completion, userContent: string)
    requires complete(userContent, 0).Failed?
    ensures Retry(complete, userContent) ==
              RetryRun(Failure(ServiceFailure(complete(userContent, 0).reason)), [Call(0)])
  {
  }

  // ---------------------------------------------------------------------------------
  // Reading the reply

  /** A JSON value as `json.loads` returns it (numbers are kept as their literal text). */
  datatype Json =
    | JNull
    | JBool(b: bool)
    | JNumber(literal: string)
    | JString(s: string)
    | JArray(items: seq<Json>)
    | JObject(members: map<string, Json>)

  /** `json.loads`: None stands for `JSONDecodeError`. */
  type JsonParser = string -> Option<Json>

  function IndexOf(s: string, c: char): (r: Option<nat>)
    ensures r.Some? ==> r.value < |s| && s[r.value] == c && forall i | 0 <= i < r.value :: s[i] != c
    ensures r.None? ==> forall i | 0 <= i < |s| :: s[i] != c
  {
    if s == [] then None
    else if s[0] == c then Some(0)
    else match IndexOf(s[1..], c)
      case None => None
      case Some(i) => Some(i + 1)
  }

  function LastIndexOf(s: string, c: char): (r: Option<nat>)
    ensures r.Some? ==> r.value < |s| && s[r.value] == c && forall i | r.value < i < |s| :: s[i] != c
    ensures r.None? ==> forall i | 0 <= i < |s| :: s[i] != c
  {
    if s == [] then None
    else if s[|s| - 1] == c then Some(|s| - 1)
    else LastIndexOf(s[..|s| - 1], c)
  }

  /** Where the greedy, dot-all search for `\{.*\}` matches: from the first '{' to the
      last '}', when that '}' comes after the '{'. */
  function BraceBounds(s: string): (r: Option<(nat, nat)>)
    ensures r.Some? ==> r.value.0 < r.value.1 < |s| && s[r.value.0] == '{' && s[r.value.1] == '}'
    ensures r.Some? ==> (forall k | 0 <= k < r.value.0 :: s[k] != '{') && (forall k | r.value.1 < k < |s| :: s[k] != '}')
    ensures r.None? <==> !exists i, j | 0 <= i < j < |s| :: s[i] == '{' && s[j] == '}'
  {
    match (IndexOf(s, '{'), LastIndexOf(s, '}'))
    case (Some(i), Some(j)) => if i < j then Some((i, j)) else None
    case _ => None
  }

  /** The text the search finds. This is not a search for balanced braces: "{a} {b}"
      yields the whole of it. */
  function BraceSpan(s: string): (r: Option<string>)
    ensures r.Some? ==> 2 <= |r.value| && r.value[0] == '{' && r.value[|r.value| - 1] == '}'
    ensures r.Some? ==> BraceBounds(s).Some? && r.value == s[BraceBounds(s).value.0..BraceBounds(s).value.1 + 1]
    ensures r.None? <==> !exists i, j | 0 <= i < j < |s| :: s[i] == '{' && s[j] == '}'
  {
    match BraceBounds(s)
    case None => None
    case Some((i, j)) =>
      assert s[i..j + 1][j - i] == s[j];
      Some(s[i..j + 1])
  }

  /** A text made of a part without '{', a span from '{' to '}', and a part without '}'
      yields exactly that span, whatever the span holds. */
  lemma BraceSpanOfWrapped(pre: string, inner: string, post: string)
    requires forall k | 0 <= k < |pre| :: pre[k] != '{'
    requires forall k | 0 <= k < |post| :: post[k] != '}'
    ensures BraceSpan(pre + "{" + inner + "}" + post) == Some("{" + inner + "}")
  {
    var span := "{" + inner + "}";
    var s := pre + span + post;
    assert s == pre + "{" + inner + "}" + post;
    var i, j := |pre|, |pre| + |span| - 1;
    assert s[i] == '{' && s[j] == '}';
    assert forall k | 0 <= k < i :: s[k] == pre[k];
    assert forall k | j < k < |s| :: s[k] == post[k - j - 1];
    BoundsOfFirstAndLast(s, i, j);
    assert s[i..j + 1] == span;
  }

  /** The search finds the first '{' and the last '}'. */
  lemma BoundsOfFirstAndLast(s: string, i: nat, j: nat)
    requires i < j < |s| && s[i] == '{' && s[j] == '}'
    requires forall k | 0 <= k < i :: s[k] != '{'
    requires forall k | j < k < |s| :: s[k] != '}'
    ensures BraceBounds(s) == Some((i, j))
  {
    assert IndexOf(s, '{') == Some(i);
    assert LastIndexOf(s, '}') == Some(j);
  }

  /** `json.loads(content)`, and on failure the same on the brace span; no span raises
      `ValueError` carrying the reply. A null content is not text and raises at once. */
  function ParseReply(content: Option<string>, parse: JsonParser): (r: Result<Json, Error>)
    ensures content.None? ==> r == Failure(NoContent)
    ensures content.Some? && parse(content.value).Some? ==> r == Success(parse(content.value).value)
    ensures content.Some? && parse(content.value).None? ==>
              r == match BraceSpan(content.value)
                   case None => Failure(MalformedResponse(content.value))
                   case Some(span) => if parse(span).Some? then Success(parse(span).value) else Failure(JsonDecodeError(span))
  {
    match content
    case None => Failure(NoContent)
    case Some(text) =>
      match parse(text)
      case Some(data) => Success(data)
      case None =>
        match BraceSpan(text)
        case None => Failure(MalformedResponse(text))
        case Some(span) =>
          match parse(span)
          case Some(data) => Success(data)
          case None => Failure(JsonDecodeError(span))
  }

  // ---------------------------------------------------------------------------------
  // Normalisation

  /** The `{"categorie", "urgence", "synthese"}` result of a classification. */
  datatype Classification = Classification(category: string, urgency: string, summary: string)

  function Member(o: map<string, Json>, key: string): Option<Json> {
    if key in o then Some(o[key]) else None
  }

  /** A value that `in` can look up in a dictionary; lists and dictionaries cannot. */
  predicate Hashable(v: Json) {
    !v.JArray? && !v.JObject?
  }

  /** The category kept by normalisation: the value itself when it is a known key, the
      default otherwise. */
  function CategoryOf(v: Option<Json>): (c: string)
    ensures c in Config.CategoryToSheet
    ensures v.Some? && v.value.JString? && v.value.s in Config.CategoryToSheet ==> c == v.value.s
    ensures !(v.Some? && v.value.JString? && v.value.s in Config.CategoryToSheet) ==> c == "support_utilisateur"
  {
    Config.DefaultsValid();
    if v.Some? && v.value.JString? && v.value.s in Config.CategoryToSheet then v.value.s else Config.DefaultCategory
  }

  /** The urgency kept by normalisation: the value itself when it is one of the five
      levels, "Modérée" otherwise. */
  function UrgencyOf(v: Option<Json>): (u: string)
    ensures u in Config.UrgencyLevels
    ensures v.Some? && v.value.JString? && v.value.s in Config.UrgencyLevels ==> u == v.value.s
    ensures !(v.Some? && v.value.JString? && v.value.s in Config.UrgencyLevels) ==> u == "Modérée"
  {
    Config.DefaultsValid();
    if v.Some? && v.value.JString? && v.value.s in Config.UrgencyLevels then v.value.s else Config.DefaultUrgency
  }

  /** Validation of the parsed reply. `data.get` needs an object; `synthese` must be a
      string when present and reads as "" when absent; a category that is a list or a
      dictionary cannot be hashed for the membership test. Any other value outside the
      closed sets is replaced by the default, and the summary is stripped. */
  function Normalise(data: Json): (r: Result<Classification, Error>)
    ensures r.Success? ==> r.value.category in Config.CategoryToSheet
    ensures r.Success? ==> r.value.urgency in Config.UrgencyLevels
    ensures r.Success? <==> && data.JObject?
                            && Member(data.members, "synthese").GetOr(JString("")).JString?
                            && (Member(data.members, "categorie").Some? ==> Hashable(data.members["categorie"]))
    ensures r.Success? ==> var synthese := Member(data.members, "synthese").GetOr(JString(""));
                           r.value.summary == Text.Strip(synthese.s)
    ensures r.Success? ==> r.value.category == CategoryOf(Member(data.members, "categorie"))
    ensures r.Success? ==> r.value.urgency == UrgencyOf(Member(data.members, "urgence"))
  {
    if !data.JObject? then Failure(NotAnObject)
    else
      var categorie := Member(data.members, "categorie");
      var synthese := Member(data.members, "synthese").GetOr(JString(""));
      if !synthese.JString? then Failure(SummaryNotText)
      else if categorie.Some? && !Hashable(categorie.value) then Failure(UnhashableCategory)
      else Success(Classification(CategoryOf(categorie), UrgencyOf(Member(data.members, "urgence")), Text.Strip(synthese.s)))
  }

  /** The JSON object that states a classification. */
  function ToJson(c: Classification): Json {
    JObject(map["categorie" := JString(c.category), "urgence" := JString(c.urgency), "synthese" := JString(c.summary)])
  }

  /** A classification in the closed sets, stated as JSON, normalises to itself with its
      summary stripped. */
  lemma NormaliseOfClassification(c: Classification)
    requires c.category in Config.CategoryToSheet && c.urgency in Config.UrgencyLevels
    ensures Normalise(ToJson(c)) == Success(Classification(c.category, c.urgency, Text.Strip(c.summary)))
  {
    var o := ToJson(c).members;
    assert Member(o, "categorie") == Some(JString(c.category));
    assert Member(o, "urgence") == Some(JString(c.urgency));
    assert Member(o, "synthese") == Some(JString(c.summary));
    NormaliseOfTextFields(ToJson(c), c);
  }

  /** An object whose three fields are strings in the closed sets normalises to them. */
  lemma NormaliseOfTextFields(data: Json, c: Classification)
    requires data.JObject?
    requires Member(data.members, "categorie") == Some(JString(c.category))
    requires Member(data.members, "urgence") == Some(JString(c.urgency))
    requires Member(data.members, "synthese") == Some(JString(c.summary))
    requires c.category in Config.CategoryToSheet && c.urgency in Config.UrgencyLevels
    ensures Normalise(data) == Success(Classification(c.category, c.urgency, Text.Strip(c.summary)))
  {
    var r := Normalise(data);
    assert r.Success?;
    assert r.value.category == c.category;
    assert r.value.urgency == c.urgency;
  }

  /** A reply object whose fields already are a known category, one of the five urgency
      levels and a summary without surrounding whitespace comes through unchanged. */
  lemma NormaliseKeepsValid(c: Classification)
    requires c.category in Config.CategoryToSheet
    requires c.urgency in Config.UrgencyLevels
    requires c.summary == [] || (!Text.IsSpace(c.summary[0]) && !Text.IsSpace(c.summary[|c.summary| - 1]))
    ensures Normalise(ToJson(c)) == Success(c)
  {
    NormaliseOfClassification(c);
    Text.StripNoSpace(c.summary);
  }

  /** Normalisation is idempotent: a normalised result, stated again as JSON, normalises
      to itself. */
  lemma NormaliseIdempotent(data: Json)
    requires Normalise(data).Success?
    ensures Normalise(ToJson(Normalise(data).value)) == Normalise(data)
  {
    var c := Normalise(data).value;
    NormaliseOfClassification(c);
    Text.StripIdempotent(Member(data.members, "synthese").GetOr(JString("")).s);
  }

  // ---------------------------------------------------------------------------------
  // The whole classification

  /** What `analyze_ticket` returns for a ticket. */
  function Analysis(subject: string, body: string, complete: Completion, parse: JsonParser): (r: Result<Classification, Error>)
    ensures r.Success? ==> r.value.category in Config.CategoryToSheet && r.value.urgency in Config.UrgencyLevels
  {
    match Retry(complete, UserContent(subject, body)).response
    case Failure(e) => Failure(e)
    case Success(content) =>
      match ParseReply(content, parse)
      case Failure(e) => Failure(e)
      case Success(data) => Normalise(data)
  }

  /** `analyze_ticket`. It is a method because it runs the retry loop of
      RequestCompletion; Analysis is the value it computes, which the pipeline's
      functions and lemmas use. */
  method AnalyzeTicket(subject: string, body: string, complete: Completion, parse: JsonParser)
    returns (r: Result<Classification, Error>, events: seq<Event>)
    ensures r == Analysis(subject, body, complete, parse)
    ensures events == Retry(complete, UserContent(subject, body)).events
    ensures r.Success? ==> r.value.category in Config.CategoryToSheet && r.value.urgency in Config.UrgencyLevels
  {
    var userContent := UserContent(subject, body);
    var response;
    response, events := RequestCompletion(complete, userContent);
    if response.Failure? {
      return Failure(response.error), events;
    }
    var data := ParseReply(response.value, parse);
    if data.Failure? {
      return Failure(data.error), events;
    }
    r := Normalise(data.value);
  }

  /** The members of the example reply below, as JSON text and as the parsed object. */
  const ExampleMembers: string := "\"categorie\":\"support_utilisateur\",\"urgence\":\"Faible\",\"synthese\":\"ok\""
  const ExampleObject: Json :=
    JObject(map["categorie" := JString("support_utilisateur"), "urgence" := JString("Faible"), "synthese" := JString("ok")])

  /** A reply with JSON between surrounding text, `noise {...} trailing`: the full text
      does not parse, so its brace span is parsed instead. */
  lemma JsonInTextExample(parse: JsonParser)
    requires parse("noise {" + ExampleMembers + "} trailing").None?
    requires parse("{" + ExampleMembers + "}") == Some(ExampleObject)
    ensures ParseReply(Some("noise {" + ExampleMembers + "} trailing"), parse) == Success(ExampleObject)
    ensures ExampleObject == ToJson(Classification("support_utilisateur", "Faible", "ok"))
  {
    assert "noise {" + ExampleMembers + "} trailing" == "noise " + "{" + ExampleMembers + "}" + " trailing";
    BraceSpanOfWrapped("noise ", ExampleMembers, " trailing");
  }

  /** The whole classification of a ticket whose first completion call answers with that
      reply: support_utilisateur, Faible, "ok". */
  lemma JsonInTextAnalysis(subject: string, body: string, complete: Completion, parse: JsonParser)
    requires complete(UserContent(subject, body), 0) == Reply(Some("noise {" + ExampleMembers + "} trailing"))
    requires parse("noise {" + ExampleMembers + "} trailing").None?
    requires parse("{" + ExampleMembers + "}") == Some(ExampleObject)
    ensures Analysis(subject, body, complete, parse) == Success(Classification("support_utilisateur", "Faible", "ok"))
  {
    var u := UserContent(subject, body);
    var text := "noise {" + ExampleMembers + "} trailing";
    assert FirstAnswered(complete, u, 0) == 0;
    assert Retry(complete, u).response == Success(Some(text));
    JsonInTextExample(parse);
    ExampleNormalises();
  }

  /** The object of the example normalises to its own fields. */
  lemma ExampleNormalises()
    ensures Normalise(ExampleObject) == Success(Classification("support_utilisateur", "Faible", "ok"))
  {
    var c := Classification("support_utilisateur", "Faible", "ok");
    Config.DefaultsValid();
    assert c.urgency in Config.UrgencyLevels by {
      Config.UrgencyLevelsDistinct();
    }
    assert !Text.IsSpace('o') && !Text.IsSpace('k');
    NormaliseKeepsValid(c);
    assert ExampleObject == ToJson(c);
  }

  /** An unknown category literal is replaced by the default category. */
  lemma UnknownCategoryFallsBack(urgency: Json, summary: string)
    ensures var data := JObject(map["categorie" := JString("totally_unknown"), "urgence" := urgency,
                                    "synthese" := JString(summary)]);
            Normalise(data).Success? && Normalise(data).value.category == Config.DefaultCategory
  {
    var data := JObject(map["categorie" := JString("totally_unknown"), "urgence" := urgency,
                            "synthese" := JString(summary)]);
    assert Member(data.members, "categorie") == Some(JString("totally_unknown"));
    assert Member(data.members, "synthese") == Some(JString(summary));
    assert "totally_unknown" !in Config.CategoryToSheet by {
      Config.CategoryKeys();
    }
    assert CategoryOf(Some(JString("totally_unknown"))) == "support_utilisateur";
    assert Normalise(data).Success?;
  }
}
