/**
 * The router's decision tree (app/agents/RouterAgent.ts). Every language-model
 * call becomes a parameter holding its reply's content (`None` when the reply
 * has none): `firstReply` answers the first call the router makes and
 * `secondReply` the second. The result records which calls were made, in order.
 */
module RouterAgent {
  import opened Wrappers
  import opened Text
  import opened QueryExpander

  /** `RouterOutput`; `resolvedEntity` is `None` where the source has `null`. */
  datatype RouterOutput = RouterOutput(
    shouldRewrite: bool,
    expandedQuery: string,
    resolvedEntity: Option<string>,
    reason: string)

  /** The language-model requests the router can make. */
  datatype ModelCall =
    | ExtractEntityCall(query: string)
    | ResolveEntityCall(previousQuery: string, currentQuery: string)
    | ExpandQueryCall(currentQuery: string, previousQuery: string, entity: string)

  /** One routing: the output and the model calls made to reach it. */
  datatype Routing = Routing(output: RouterOutput, calls: seq<ModelCall>)

  /** `s.toLowerCase() === "none"`. */
  predicate IsNone(s: string) {
    Lower(s) == "none"
  }

  /** The fallback "none" is itself recognised as "none". */
  lemma NoneIsNone()
    ensures IsNone("none")
  {
    assert Lower("none") == "none";
  }

  /** `extractEntityName`'s normalisation of the extractor's reply:
      `name && name.toLowerCase() !== "none" ? name : null` with
      `name = content?.trim()`. */
  function ExtractEntityName(reply: Option<string>): (name: Option<string>)
    ensures name.Some? <==> reply.Some? && Trim(reply.value) != "" && !IsNone(Trim(reply.value))
    ensures name.Some? ==> name.value == Trim(reply.value)
  {
    if reply.Some? && Trim(reply.value) != "" && !IsNone(Trim(reply.value)) then
      Some(Trim(reply.value))
    else
      None
  }

  /** The entity named in reply to the resolution prompt:
      `content?.trim() || "none"`. */
  function ResolvedEntityReply(reply: Option<string>): (entity: string)
    ensures entity != ""
    ensures reply.Some? && Trim(reply.value) != "" ==> entity == Trim(reply.value)
    ensures reply.None? || Trim(reply.value) == "" ==> entity == "none"
  {
    if reply.Some? && Trim(reply.value) != "" then Trim(reply.value) else "none"
  }

  /** `!previousQuery`: absent or empty. */
  predicate NoPrevious(previousQuery: Option<string>) {
    previousQuery.None? || previousQuery.value == ""
  }

  function Quoted(s: string): string {
    "\"" + s + "\""
  }

  /** The reasons `routeQuery` gives, the entity quoted after the first and
      the last. */
  const ResolvedReason := "Explicit query, resolved entity as "
  const NoEntityReason := "Explicit query, but no entity could be extracted"
  const NoPreviousReason := "No previous query available to resolve pronouns"
  const UnresolvedReason := "Unable to resolve entity from previous query"
  const RewriteReason := "Query contained vague pronoun, resolved using previous query mentioning "

  /** `routeQuery`. */
  function RouteQuery(currentQuery: string, previousQuery: Option<string>,
                      firstReply: Option<string>, secondReply: Option<string>): Routing
  {
    if !NeedsExpansion(currentQuery) then
      var entity := ExtractEntityName(firstReply);
      Routing(
        RouterOutput(false, currentQuery, entity,
          if entity.Some? then ResolvedReason + Quoted(entity.value)
          else NoEntityReason),
        [ExtractEntityCall(currentQuery)])
    else if NoPrevious(previousQuery) then
      Routing(
        RouterOutput(false, currentQuery, None, NoPreviousReason),
        [])
    else
      var previous := previousQuery.value;
      var entity := ResolvedEntityReply(firstReply);
      if IsNone(entity) then
        Routing(
          RouterOutput(false, currentQuery, None, UnresolvedReason),
          [ResolveEntityCall(previous, currentQuery)])
      else
        Routing(
          RouterOutput(true, ExpandResult(currentQuery, secondReply), Some(entity),
            RewriteReason + Quoted(entity)),
          [ResolveEntityCall(previous, currentQuery), ExpandQueryCall(currentQuery, previous, entity)])
  }

  /** At most two model calls are made, and an expansion is only ever asked
      for second, after the entity has been resolved. */
  lemma CallsInOrder(currentQuery: string, previousQuery: Option<string>, firstReply: Option<string>, secondReply: Option<string>)
    ensures var r := RouteQuery(currentQuery, previousQuery, firstReply, secondReply);
      && |r.calls| <= 2
      && forall k :: 0 <= k < |r.calls| && r.calls[k].ExpandQueryCall? ==>
           k == 1 && r.calls[0].ResolveEntityCall?
  {
    if NeedsExpansion(currentQuery) && !NoPrevious(previousQuery) {
      var entity := ResolvedEntityReply(firstReply);
      var previous := previousQuery.value;
      if !IsNone(entity) {
        assert RouteQuery(currentQuery, previousQuery, firstReply, secondReply).calls ==
          [ResolveEntityCall(previous, currentQuery), ExpandQueryCall(currentQuery, previous, entity)];
      }
    }
  }

  /** A rewrite always carries a resolved entity that is not "none" and a
      non-empty new query. */
  lemma RewriteHasEntity(currentQuery: string, previousQuery: Option<string>, firstReply: Option<string>, secondReply: Option<string>)
    ensures var r := RouteQuery(currentQuery, previousQuery, firstReply, secondReply);
      r.output.shouldRewrite ==>
        && r.output.resolvedEntity.Some?
        && r.output.resolvedEntity.value != ""
        && !IsNone(r.output.resolvedEntity.value)
        && r.output.expandedQuery != ""
  {
    if NeedsExpansion(currentQuery) && !NoPrevious(previousQuery) {
      var entity := ResolvedEntityReply(firstReply);
      if !IsNone(entity) {
        VagueIsNonEmpty(currentQuery);
        ExpandNeverEmpty(currentQuery, secondReply);
        assert RouteQuery(currentQuery, previousQuery, firstReply, secondReply).output.resolvedEntity == Some(entity);
      }
    }
  }

  /** Without a rewrite the query is passed on unchanged. */
  lemma KeptUnlessRewritten(currentQuery: string, previousQuery: Option<string>, firstReply: Option<string>, secondReply: Option<string>)
    ensures var r := RouteQuery(currentQuery, previousQuery, firstReply, secondReply);
      !r.output.shouldRewrite ==> r.output.expandedQuery == currentQuery
  {
  }

  /** An explicit query is not rewritten; its entity is whatever the extractor
      yields, and only the extractor is asked. */
  lemma RouteExplicit(currentQuery: string, previousQuery: Option<string>, firstReply: Option<string>, secondReply: Option<string>)
    requires !NeedsExpansion(currentQuery)
    ensures var r := RouteQuery(currentQuery, previousQuery, firstReply, secondReply);
      && r.output.shouldRewrite == false
      && r.output.expandedQuery == currentQuery
      && r.output.resolvedEntity == ExtractEntityName(firstReply)
      && r.calls == [ExtractEntityCall(currentQuery)]
  {
  }

  /** A vague query without a previous query is passed through with no
      entity, and no model is asked. */
  lemma RouteNoPrevious(currentQuery: string, previousQuery: Option<string>, firstReply: Option<string>, secondReply: Option<string>)
    requires NeedsExpansion(currentQuery) && NoPrevious(previousQuery)
    ensures var r := RouteQuery(currentQuery, previousQuery, firstReply, secondReply);
      && r.output == RouterOutput(false, currentQuery, None, NoPreviousReason)
      && r.calls == []
  {
  }

  /** A vague query whose entity reply is missing, blank or "none" in any case
      is passed through with no entity after one model call. */
  lemma RouteUnresolved(currentQuery: string, previous: string, firstReply: Option<string>, secondReply: Option<string>)
    requires NeedsExpansion(currentQuery) && previous != ""
    requires firstReply.None? || Trim(firstReply.value) == "" || IsNone(Trim(firstReply.value))
    ensures var r := RouteQuery(currentQuery, Some(previous), firstReply, secondReply);
      && r.output == RouterOutput(false, currentQuery, None, UnresolvedReason)
      && r.calls == [ResolveEntityCall(previous, currentQuery)]
  {
    NoneIsNone();
  }

  /** Otherwise the query is rewritten: the entity is the trimmed reply and the
      new query is what expansion yields from the second reply. */
  lemma RouteRewrite(currentQuery: string, previous: string, firstReply: Option<string>, secondReply: Option<string>)
    requires NeedsExpansion(currentQuery) && previous != ""
    requires firstReply.Some? && Trim(firstReply.value) != "" && !IsNone(Trim(firstReply.value))
    ensures var r := RouteQuery(currentQuery, Some(previous), firstReply, secondReply);
      var entity := Trim(firstReply.value);
      && r.output.shouldRewrite
      && r.output.resolvedEntity == Some(entity)
      && r.output.expandedQuery == ExpandResult(currentQuery, secondReply)
      && r.calls == [ResolveEntityCall(previous, currentQuery), ExpandQueryCall(currentQuery, previous, entity)]
  {
  }

  /** Rewriting happens exactly for a vague query with a previous query whose
      entity reply names something other than "none". */
  lemma ShouldRewriteIff(currentQuery: string, previousQuery: Option<string>, firstReply: Option<string>, secondReply: Option<string>)
    ensures RouteQuery(currentQuery, previousQuery, firstReply, secondReply).output.shouldRewrite <==>
      && NeedsExpansion(currentQuery)
      && !NoPrevious(previousQuery)
      && !IsNone(ResolvedEntityReply(firstReply))
  {
  }

  /** The replies only matter for the calls actually made: with no call the
      output ignores both replies. */
  lemma NoCallIgnoresReplies(currentQuery: string, previousQuery: Option<string>,
                             first: Option<string>, second: Option<string>,
                             first': Option<string>, second': Option<string>)
    requires RouteQuery(currentQuery, previousQuery, first, second).calls == []
    ensures RouteQuery(currentQuery, previousQuery, first', second') == RouteQuery(currentQuery, previousQuery, first, second)
  {
    assert NeedsExpansion(currentQuery) && NoPrevious(previousQuery);
  }

  /** With at most one call the output ignores the second reply. */
  lemma OneCallIgnoresSecondReply(currentQuery: string, previousQuery: Option<string>,
                                  first: Option<string>, second: Option<string>, second': Option<string>)
    requires |RouteQuery(currentQuery, previousQuery, first, second).calls| <= 1
    ensures RouteQuery(currentQuery, previousQuery, first, second') == RouteQuery(currentQuery, previousQuery, first, second)
  {
    if NeedsExpansion(currentQuery) && !NoPrevious(previousQuery) {
      assert IsNone(ResolvedEntityReply(first));
    }
  }
}
