/**
 * The `POST` handler of `app/api/query_ai/route.ts`: validate the query,
 * look up matching chunks, build the prompt from their texts, post it to
 * the assistant's thread and poll the run until it completes.
 *
 * The embedding service and the vector index are one parameter `search`
 * (the matches for a query, or `None` when either call throws); the run's
 * successive polls are a finite sequence, where the source would wait two
 * seconds between polls and poll without bound.
 */
module QueryAi {
  import opened Wrappers
  import opened Text

  /** The request body as `req.json()` sees it: unreadable (the call throws)
      or an object whose `query` property is a string or absent. */
  datatype Request = Unreadable | Body(query: Option<string>)

  /** One match from the index: its `metadata.text`, absent when the match
      has no metadata or no text. */
  datatype Match = Match(text: Option<string>)

  /** The first content block of the newest message of the thread: a text
      block, or anything else (another kind of block, or none at all). */
  datatype Content = TextContent(value: string) | OtherContent

  /** One poll of the run: the status it reports together with the content
      that listing the messages would give at that moment, or a poll whose
      request throws. */
  datatype Poll = Polled(status: string, content: Content) | PollFailed

  /** How the poll loop ends on the polls given: with the answer, with an
      exception, or not yet (every poll given kept it polling). */
  datatype PollOutcome = Answered(text: string) | Threw | StillPolling

  /** A JSON response `{ <key>: <value> }` with its HTTP status, or no
      response yet because the run has not completed. */
  datatype Response = Json(status: nat, key: string, value: string) | Pending

  /** What the handler does: the query it embeds and searches for, the
      message it posts to the thread, and its response. */
  datatype Exchange = Exchange(searched: Option<string>, sent: Option<string>, response: Response)

  const QueryRequired := Json(400, "error", "Query is required")
  const NoData := Json(404, "message", "No relevant data found.")
  const ServerError := Json(500, "error", "Internal Server Error")

  const PromptLead := "Based on this retrieved data, answer: "
  const DataHeading := "\n\nData:\n"

  // ---- Context and prompt (lines 32 and 38) ----

  /** `match.metadata?.text` for every match; `join` writes an absent text
      as the empty string. */
  function MatchTexts(matches: seq<Match>): (texts: seq<string>)
    ensures |texts| == |matches|
    ensures forall k :: 0 <= k < |matches| ==> texts[k] == matches[k].text.GetOr("")
  {
    seq(|matches|, (k: int) requires 0 <= k < |matches| => matches[k].text.GetOr(""))
  }

  /** The retrieved data handed to the assistant: the matches' texts in
      ranking order, one per line. */
  function Context(matches: seq<Match>): string {
    Join(MatchTexts(matches), "\n")
  }

  /** Each further match adds a line to the end of the context. */
  lemma ContextAppend(matches: seq<Match>, m: Match)
    requires |matches| >= 1
    ensures Context(matches + [m]) == Context(matches) + "\n" + m.text.GetOr("")
  {
    assert MatchTexts(matches + [m]) == MatchTexts(matches) + [m.text.GetOr("")];
    JoinAppend(MatchTexts(matches), m.text.GetOr(""), "\n");
  }

  /** A single match's text is the whole context. */
  lemma ContextOfOne(m: Match)
    ensures Context([m]) == m.text.GetOr("")
  {
    assert MatchTexts([m]) == [m.text.GetOr("")];
  }

  /** The message posted to the thread: the lead, the query, the heading and
      the data, back to back. */
  function Prompt(query: string, context: string): (r: string)
    ensures |r| == |PromptLead| + |query| + |DataHeading| + |context|
    ensures r[..|PromptLead|] == PromptLead
    ensures r[|PromptLead|..|PromptLead| + |query|] == query
    ensures r[|PromptLead| + |query|..|r| - |context|] == DataHeading
    ensures r[|r| - |context|..] == context
  {
    PromptLead + query + DataHeading + context
  }

  /** Two prompts for queries of the same length are equal only for the same
      query and the same data. */
  lemma PromptInjective(query: string, context: string, query': string, context': string)
    requires |query| == |query'|
    ensures Prompt(query, context) == Prompt(query', context') <==> query == query' && context == context'
  {
    if Prompt(query, context) == Prompt(query', context') {
      var r := Prompt(query, context);
      assert query == r[|PromptLead|..|PromptLead| + |query|];
      assert context == r[|r| - |context|..];
    }
  }

  // ---- The poll loop (lines 45-58) ----

  /** A poll after which the loop does not poll again: it throws, or the run
      is completed and the content is not an empty text (an empty answer is
      falsy, so `while (!response)` goes round once more). */
  predicate Stops(p: Poll) {
    p.PollFailed? || (p.status == "completed" && !(p.content.TextContent? && p.content.value == ""))
  }

  /** How the loop ends at a poll that stops it. */
  function StopOutcome(p: Poll): PollOutcome
    requires Stops(p)
  {
    if p.Polled? && p.content.TextContent? then Answered(p.content.value) else Threw
  }

  /** How the poll loop ends on `polls`. */
  function PollResult(polls: seq<Poll>): (r: PollOutcome)
    ensures r.Answered? ==> r.text != ""
    ensures r == StillPolling <==> forall k :: 0 <= k < |polls| ==> !Stops(polls[k])
    decreases |polls|
  {
    if polls == [] then StillPolling
    else if Stops(polls[0]) then StopOutcome(polls[0])
    else
      var r := PollResult(polls[1..]);
      assert forall k :: 1 <= k < |polls| ==> polls[k] == polls[1..][k - 1];
      r
  }

  /** The index of the first poll that stops the loop, or `|polls|`. */
  function FirstStop(polls: seq<Poll>): (k: nat)
    ensures k <= |polls|
    ensures forall j :: 0 <= j < k ==> !Stops(polls[j])
    ensures k < |polls| ==> Stops(polls[k])
    decreases |polls|
  {
    if polls == [] || Stops(polls[0]) then 0
    else
      var k := FirstStop(polls[1..]);
      assert forall j :: 1 <= j < k + 1 ==> polls[j] == polls[1..][j - 1];
      k + 1
  }

  /** The loop ends as the first poll that stops it says: every poll before
      it, whatever its status ("queued", "in_progress", "failed", ...), only
      made the loop poll again. */
  lemma {:induction false} FirstStopDecides(polls: seq<Poll>, k: nat)
    requires k < |polls| && Stops(polls[k])
    requires forall j :: 0 <= j < k ==> !Stops(polls[j])
    ensures PollResult(polls) == StopOutcome(polls[k])
    decreases k
  {
    if k > 0 {
      assert polls[1..][k - 1] == polls[k];
      FirstStopDecides(polls[1..], k - 1);
    }
  }

  /** The loop of lines 45-58; `response` starts out falsy (`""` stands for
      `undefined`). */
  method PollRun(polls: seq<Poll>) returns (outcome: PollOutcome)
    ensures outcome == PollResult(polls)
  {
    var response := "";
    var k := 0;
    while response == "" && k < |polls|
      invariant 0 <= k <= |polls|
      invariant response == "" ==> PollResult(polls) == PollResult(polls[k..])
      invariant response != "" ==> PollResult(polls) == Answered(response)
      decreases |polls| - k
    {
      assert polls[k..][1..] == polls[k + 1..];
      match polls[k] {
        case PollFailed =>
          return Threw;
        case Polled(status, content) =>
          if status == "completed" {
            if content.TextContent? {
              response := content.value;
            } else {
              return Threw;
            }
          }
      }
      k := k + 1;
    }
    if response == "" {
      return StillPolling;
    }
    return Answered(response);
  }

  // ---- The handler ----

  /** Lines 8-66. */
  function QueryOutcome(request: Request, search: string -> Option<seq<Match>>, polls: seq<Poll>): Exchange {
    match request
    case Unreadable => Exchange(None, None, ServerError)
    case Body(query) =>
      if query.None? || query.value == "" then Exchange(None, None, QueryRequired)
      else
        var q := query.value;
        match search(q)
        case None => Exchange(Some(q), None, ServerError)
        case Some(matches) =>
          if |matches| == 0 then Exchange(Some(q), None, NoData)
          else
            var reply := match PollResult(polls)
              case Answered(text) => Json(200, "response", text)
              case Threw => ServerError
              case StillPolling => Pending;
            Exchange(Some(q), Some(Prompt(q, Context(matches))), reply)
  }

  method Post(request: Request, search: string -> Option<seq<Match>>, polls: seq<Poll>)
    returns (exchange: Exchange)
    ensures exchange == QueryOutcome(request, search, polls)
  {
    if request.Unreadable? {
      return Exchange(None, None, ServerError);
    }
    var query := request.query;
    if query.None? || query.value == "" {
      return Exchange(None, None, QueryRequired);
    }
    var q := query.value;
    var found := search(q);
    if found.None? {
      return Exchange(Some(q), None, ServerError);
    }
    var matches := found.value;
    if |matches| == 0 {
      return Exchange(Some(q), None, NoData);
    }
    var message := Prompt(q, Context(matches));
    var outcome := PollRun(polls);
    var response;
    match outcome {
      case Answered(text) =>
        response := Json(200, "response", text);
      case Threw =>
        response := ServerError;
      case StillPolling =>
        response := Pending;
    }
    return Exchange(Some(q), Some(message), response);
  }

  // ---- What the handler promises ----

  /** The query is rejected exactly when it is missing or empty, and then
      nothing is searched and nothing is sent. */
  lemma QueryRequiredIff(request: Request, search: string -> Option<seq<Match>>, polls: seq<Poll>)
    ensures var e := QueryOutcome(request, search, polls);
      (e.response == QueryRequired <==> request.Body? && (request.query.None? || request.query.value == ""))
      && (e.response == QueryRequired ==> e.searched.None? && e.sent.None?)
  {
  }

  /** 404 exactly when the search finds nothing for a valid query; nothing
      is sent to the assistant then. */
  lemma NoDataIff(request: Request, search: string -> Option<seq<Match>>, polls: seq<Poll>)
    ensures var e := QueryOutcome(request, search, polls);
      (e.response == NoData <==>
        request.Body? && request.query.Some? && request.query.value != ""
        && search(request.query.value) == Some([]))
      && (e.response == NoData ==> e.sent.None?)
  {
  }

  /** A message is sent only for a valid query with matches, and it is the
      prompt built from that query and those matches' texts. */
  lemma SentMessage(request: Request, search: string -> Option<seq<Match>>, polls: seq<Poll>)
    ensures var e := QueryOutcome(request, search, polls);
      e.sent.Some? <==>
        (request.Body? && request.query.Some? && request.query.value != ""
         && search(request.query.value).Some? && |search(request.query.value).value| > 0)
    ensures var e := QueryOutcome(request, search, polls);
      e.sent.Some? ==>
        e.sent.value == Prompt(request.query.value, Context(search(request.query.value).value))
  {
  }

  /** A 200 answer carries the non-empty text of the first poll that stops
      the loop, and that poll saw a completed run. */
  lemma AnswerIsFirstCompletedText(request: Request, search: string -> Option<seq<Match>>, polls: seq<Poll>)
    ensures var e := QueryOutcome(request, search, polls);
      e.response.Json? && e.response.status == 200 ==>
        && e.response.key == "response" && e.response.value != ""
        && exists k :: 0 <= k < |polls| && Stops(polls[k])
             && (forall j :: 0 <= j < k ==> !Stops(polls[j]))
             && polls[k] == Polled("completed", TextContent(e.response.value))
  {
    var e := QueryOutcome(request, search, polls);
    if e.response.Json? && e.response.status == 200 {
      var k := FirstStop(polls);
      if k < |polls| {
        FirstStopDecides(polls, k);
      }
    }
  }

  /** Every failure after validation, and an unreadable body, answers 500. */
  lemma ServerErrorIff(request: Request, search: string -> Option<seq<Match>>, polls: seq<Poll>)
    ensures var e := QueryOutcome(request, search, polls);
      e.response == ServerError <==>
        || request.Unreadable?
        || (request.query.Some? && request.query.value != ""
            && (search(request.query.value).None?
                || (|search(request.query.value).value| > 0 && PollResult(polls) == Threw)))
  {
  }
}
