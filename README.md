# A verified model of the RAG assistant's request handling

This project is a Dafny model of the server-side core of a Next.js
retrieval-augmented assistant (Anant-404/2_way_rag). The assistant answers
questions about an uploaded PDF through a streaming avatar. The model covers
the following parts:

- **ContextMemory** (`app/utils/contextMemory.ts`) is the per-user memory of the last resolved entity in a module-level map. Entries have a fifteen-minute time-to-live and expire lazily on read. It is modelled as a class `EntityMemory` that holds the map, with the clock passed as a parameter.
- **ClearMemoryRoute** (`app/api/clear_memory/route.ts`) is the endpoint that forgets the entity of the user named by the `x-user-id` header, or of "anonymous".
- **QueryExpander** (`app/agents/QueryExpanderAgent.ts`) is the vague-pronoun detector, plus the fallback rule for the rewriter's reply.
- **RouterAgent** (`app/agents/RouterAgent.ts`) is the routing decision tree. It is a function of the query, the previous query and the language model's replies, and it also returns the list of model calls it makes.
- **Middleware** (`middleware.ts`) is the access gate: public files, `/api` and `/_next` pass; then a matching cookie passes, a matching `?key=` sets the cookie and passes, and everything else is redirected to `/locked`.
- **FillerSentences** (`app/utils/fillerSentences.ts`) draws one random sentence, or several without replacement. The `Math.random()` results are parameters.
- **VoiceInput** (`components/VoiceInput.tsx`) models `correctText`: the two case-insensitive global regular-expression replacements. Each is a left-to-right scan with `\b` on ASCII word characters. The main result is that correcting twice is the same as correcting once.
- **UploadDoc** (`app/api/upload_doc/route.ts`) models the upload endpoint:
  - the clean-up of the language model's reply;
  - the check that the parse gave an array;
  - the chunk ids, and the proof that the stored ids are distinct;
  - the metadata merge;
  - the reported count.

  The vector index is a class `VectorIndex` whose list of records the endpoint extends. The endpoint's outer loop is a method proved against the spec function `UploadOutcome`.
- **QueryAi** (`app/api/query_ai/route.ts`) models the question endpoint:
  - validation, the no-match rule and the context join;
  - the prompt;
  - the poll loop over a finite sequence of run statuses, as a method proved against `PollResult`;
  - the mapping of errors to responses.

Two shared modules support these:

- **Text** holds the JavaScript string operations the code uses: `trim` and the `\s` class, ASCII `toLowerCase`, `includes`, `startsWith`, `endsWith` and `join`.
- **Wrappers** holds `Option`.

Services the code calls are parameters of the model: the language model, the embedding service, the vector index search, the PDF loader and splitter, `JSON.parse` and the MD5 hash. The poll loop's two-second wait is left out.

## Model

| member | source | states |
|---|---|---|
| ContextMemory.EntityMemory.constructor | app/utils/contextMemory.ts:8 | the memory starts empty |
| ContextMemory.EntityMemory.SetLastEntity | app/utils/contextMemory.ts:11-16 | stores the entity with expiry `now + 900000`, replacing the user's entry; other users' entries are unchanged |
| ContextMemory.EntityMemory.GetLastEntity | app/utils/contextMemory.ts:18-28 | returns `Lookup` of the old map and leaves `AfterGet` of it: an expired entry is deleted, other users are untouched |
| ContextMemory.EntityMemory.ClearEntityMemory | app/utils/contextMemory.ts:30-32 | removes the user's entry and only that one |
| ContextMemory.GetAbsent | app/utils/contextMemory.ts:19-20 | a read of an absent user gives nothing and changes nothing |
| ContextMemory.GetExpiredEvicts | app/utils/contextMemory.ts:22-25 | a read after expiry gives nothing and deletes the entry, so every later read gives nothing |
| ContextMemory.GetLive | app/utils/contextMemory.ts:22-27 | a read up to and including `expiresAt` gives the entity and changes nothing |
| ContextMemory.SetThenGet | app/utils/contextMemory.ts:11-28 | a set entity is read back exactly while `now <= setAt + 900000` |
| ContextMemory.ClearForgets | app/utils/contextMemory.ts:30-32 | a cleared user reads as absent at every time |
| ContextMemory.OtherUsersIsolated | app/utils/contextMemory.ts:12-31 | set, get and clear on one user never change another user's read |
| ClearMemoryRoute.UserIdFrom | app/api/clear_memory/route.ts:7 | a non-empty header is the user id; a missing or empty one gives "anonymous"; the id is never empty |
| ClearMemoryRoute.Post | app/api/clear_memory/route.ts:6-10 | deletes exactly the header user's entry and answers success with the message naming that user |
| ClearMemoryRoute.PostEffect | app/api/clear_memory/route.ts:8 | afterwards the named user reads as absent and every other user reads as before |
| ClearMemoryRoute.MessageNamesUser | app/api/clear_memory/route.ts:9 | the message holds the user id between double quotes at a fixed offset |
| QueryExpander.NeedsExpansion | app/agents/QueryExpanderAgent.ts:10-13 | `needsExpansion`: some vague word with a space on each side occurs in the lower-cased query; `NeedsExpansionIff` and the lemmas below characterise it |
| QueryExpander.NeedsExpansionIff | app/agents/QueryExpanderAgent.ts:10-13 | vague exactly when some vague word, padded with spaces, occurs in the lower-cased query |
| QueryExpander.MatchIsSpaceDelimited | app/agents/QueryExpanderAgent.ts:11-12 | a vague query has real spaces around a word that lower-cases to a vague word |
| QueryExpander.SpaceDelimitedPronounIsVague | app/agents/QueryExpanderAgent.ts:11-12 | conversely, such a word in any case makes the query vague |
| QueryExpander.VagueIsNonEmpty | app/agents/QueryExpanderAgent.ts:12 | a vague query is at least four characters long |
| QueryExpander.NoSpaceNeverVague | app/agents/QueryExpanderAgent.ts:12 | a query without a space is never vague |
| QueryExpander.AtMostOneSpaceNeverVague | app/agents/QueryExpanderAgent.ts:12 | a query with at most one space is never vague |
| QueryExpander.CaseInsensitive | app/agents/QueryExpanderAgent.ts:11 | detection gives the same answer on the lower-cased query |
| QueryExpander.UpperCasePronounIsVague | app/agents/QueryExpanderAgent.ts:11-12 | "What did HE say" is vague |
| QueryExpander.PronounBeforePunctuationIsNotVague | app/agents/QueryExpanderAgent.ts:12 | "about her?" is not vague |
| QueryExpander.PronounAtEitherEndIsNotVague | app/agents/QueryExpanderAgent.ts:12 | "she left" and "ask them" are not vague |
| QueryExpander.TheyIsNotVague | app/agents/QueryExpanderAgent.ts:5 | "they" is not among the vague words |
| QueryExpander.ExpandResult | app/agents/QueryExpanderAgent.ts:44 | the trimmed reply if it is non-empty, otherwise the current query |
| QueryExpander.ExpandNeverEmpty | app/agents/QueryExpanderAgent.ts:44 | the expansion of a non-empty query is non-empty, and it is either the query itself or a text already trimmed |
| RouterAgent.RouteQuery | app/agents/RouterAgent.ts:17-79 | `routeQuery`: the routing and the model calls made, in order; the `Route…`, `ShouldRewriteIff`, `CallsInOrder`, `RewriteHasEntity` and `KeptUnlessRewritten` lemmas state its outcomes |
| RouterAgent.ExtractEntityName | app/agents/RouterAgent.ts:96-97 | some name exactly when the trimmed reply is non-empty and is not "none" in any case; the name is the trimmed reply |
| RouterAgent.ResolvedEntityReply | app/agents/RouterAgent.ts:59 | the trimmed reply, or "none" when it is missing or blank; never empty |
| RouterAgent.NoneIsNone | app/agents/RouterAgent.ts:59-61 | the fallback "none" is recognised as none |
| RouterAgent.CallsInOrder | app/agents/RouterAgent.ts:17-79 | at most two model calls, and an expansion is asked for only second, after the entity was resolved |
| RouterAgent.RewriteHasEntity | app/agents/RouterAgent.ts:59-78 | a rewrite carries a resolved entity that is neither empty nor "none", and a non-empty new query |
| RouterAgent.KeptUnlessRewritten | app/agents/RouterAgent.ts:25-67 | without a rewrite the query is passed on unchanged |
| RouterAgent.RouteExplicit | app/agents/RouterAgent.ts:23-33 | an explicit query is not rewritten, and its entity is the extractor's normalised reply |
| RouterAgent.RouteNoPrevious | app/agents/RouterAgent.ts:35-42 | a vague query without a previous query is kept, with no entity and no model call |
| RouterAgent.RouteUnresolved | app/agents/RouterAgent.ts:59-68 | a vague query whose entity reply is missing, blank or "none" is kept with no entity |
| RouterAgent.RouteRewrite | app/agents/RouterAgent.ts:70-78 | otherwise the query is rewritten to the expander's answer, with the trimmed entity |
| RouterAgent.ShouldRewriteIff | app/agents/RouterAgent.ts:17-79 | a rewrite happens exactly for a vague query with a previous query and a resolvable entity reply |
| RouterAgent.NoCallIgnoresReplies | app/agents/RouterAgent.ts:35-42 | when no call is made the replies do not matter |
| RouterAgent.OneCallIgnoresSecondReply | app/agents/RouterAgent.ts:23-68 | with at most one call the second reply does not matter |
| Middleware.Middleware | middleware.ts:6-32 | a set cookie carries the URL key, which equals `ACCESS_KEY`; a redirect goes to /locked |
| Middleware.BypassAlwaysPasses | middleware.ts:12-18 | public files, /api and /_next pass whatever the key and cookie |
| Middleware.DottedPathIsBypassed | middleware.ts:4 | a path with a '.' on its last line is a public file |
| Middleware.CookieTakesPrecedence | middleware.ts:21 | a matching cookie passes without setting anything, whatever the key |
| Middleware.KeySetsCookie | middleware.ts:24-28 | a matching key sets `access_key` to the key, for path "/" and 86400 seconds |
| Middleware.RedirectIff | middleware.ts:12-31 | a redirect happens exactly when the path is protected and neither the cookie nor the key matches |
| Middleware.UnsetKeyWithoutCookiePasses | middleware.ts:8-21 | with no `ACCESS_KEY` a request without the cookie passes (`undefined === undefined`) |
| Middleware.UnsetKeyNeverSetsCookie | middleware.ts:7-24 | with no `ACCESS_KEY` a URL key never sets the cookie |
| FillerSentences.RandomIndex | app/utils/fillerSentences.ts:27 | `Math.floor(random * length)` is an index of the list |
| FillerSentences.GetRandomFillerSentence | app/utils/fillerSentences.ts:26-29 | the result is one of the sentences |
| FillerSentences.SentencesDistinct | app/utils/fillerSentences.ts:2-23 | the list holds twenty different sentences |
| FillerSentences.DrawnFromList | app/utils/fillerSentences.ts:34-39 | a draw without replacement from the list is distinct and made of list members |
| FillerSentences.Draws | app/utils/fillerSentences.ts:36 | no rounds for a count below one, `count` rounds up to the pool size, and the pool size for any larger count |
| FillerSentences.DrawWithoutReplacement | app/utils/fillerSentences.ts:33-42 | the loop yields `Draws(count, size)` sentences, a sub-multiset of the pool |
| FillerSentences.GetRandomFillerSentences | app/utils/fillerSentences.ts:32-43 | `Draws(count, 20)` different sentences, all from the list |
| VoiceInput.ReplaceAll | components/VoiceInput.tsx:13-16 | one global case-insensitive `replace`: a left-to-right scan that replaces each match and resumes after it; `NoMatchUnchanged` and `NoMatchAfterReplace` are about it |
| VoiceInput.CorrectText | components/VoiceInput.tsx:11-19 | `correctText`: the "simply q" replacement, then the "graphic" one; `CorrectTextIdempotent` and `NeitherPatternUnchanged` are about it |
| VoiceInput.MatchAt | components/VoiceInput.tsx:13-16 | a match has a positive length inside the text |
| VoiceInput.NoMatchUnchanged | components/VoiceInput.tsx:13-16 | a replacement whose pattern matches nowhere returns the text |
| VoiceInput.NeitherPatternUnchanged | components/VoiceInput.tsx:11-19 | text matching neither pattern is returned unchanged |
| VoiceInput.NoMatchWithoutFirstLetter | components/VoiceInput.tsx:13-16 | a text lacking the pattern word's first letter has no match |
| VoiceInput.GraphicsUnchanged | components/VoiceInput.tsx:16 | "graphics" is left alone: no word boundary follows "graphic" |
| VoiceInput.PhotographicUnchanged | components/VoiceInput.tsx:16 | "photographic" is left alone: no word boundary precedes "graphic" |
| VoiceInput.SimplyQBecomesCue | components/VoiceInput.tsx:13 | "Simply \t Q" becomes "simply cue" |
| VoiceInput.GraphicBecomesGraphy | components/VoiceInput.tsx:16 | "GRAPHIC" becomes "graphy" |
| VoiceInput.MatchWindow | components/VoiceInput.tsx:13-16 | a match depends only on its own characters and the wordness of its two neighbours |
| VoiceInput.NoMatchInOutput | components/VoiceInput.tsx:13-16 | no match of either rule occurs in the scan's output where the input had none |
| VoiceInput.NoMatchAfterReplace | components/VoiceInput.tsx:13-16 | a replacement leaves no match of its own pattern, and keeps a pattern absent that was absent |
| VoiceInput.CorrectTextIdempotent | components/VoiceInput.tsx:11-19 | correcting a corrected text changes nothing |
| UploadDoc.TrimmedReply | app/api/upload_doc/route.ts:86 | the trimmed reply content, or "" when there is none |
| UploadDoc.CleanReply | app/api/upload_doc/route.ts:86-100 | the whole clean-up, step by step in the source's order; `CleanReplySkeleton` and `FencedObjectNotWrapped` are about it |
| UploadDoc.StripFences | app/api/upload_doc/route.ts:89-91 | never longer than the input; text not starting with a fence is unchanged |
| UploadDoc.StripJsonFence | app/api/upload_doc/route.ts:89-91 | "```json" (tag in any case), whitespace, body, "```" gives the body back |
| UploadDoc.BareFenceKept | app/api/upload_doc/route.ts:90 | an opening fence without "json" stays; only a closing fence goes |
| UploadDoc.WrapLoneObject | app/api/upload_doc/route.ts:93-95 | text from "{" to "}" is bracketed, anything else is unchanged |
| UploadDoc.NewlinesToSpaces | app/api/upload_doc/route.ts:98 | each line feed without a backslash before it becomes a space; everything else is kept in place |
| UploadDoc.NewlinesIdempotent | app/api/upload_doc/route.ts:98 | afterwards no such line feed is left, so the step is idempotent |
| UploadDoc.DropTrailingCommas | app/api/upload_doc/route.ts:99-100 | never longer, and only commas and whitespace are removed (the skeleton is kept); `DropShrinksIff` and `FirstMatchDropped` say which |
| UploadDoc.DropShrinksIff | app/api/upload_doc/route.ts:99-100 | the text gets shorter exactly when a comma, optional whitespace and the closing character occur in it; otherwise it is unchanged |
| UploadDoc.FirstMatchDropped | app/api/upload_doc/route.ts:99-100 | the text before the first comma is copied, and a first comma that starts a match goes with its whitespace, the closing character staying |
| UploadDoc.SinglePass | app/api/upload_doc/route.ts:99 | the replacement is one pass: ",,}" becomes ",}", keeping a trailing comma |
| UploadDoc.CleanReplySkeleton | app/api/upload_doc/route.ts:86-100 | past the fences and the wrap, the clean-up keeps every character other than commas and whitespace, in order |
| UploadDoc.FencedObjectNotWrapped | app/api/upload_doc/route.ts:86-100 | a fenced lone object is not wrapped, because the line feed before the closing fence is still there |
| UploadDoc.NoCommaUnchanged | app/api/upload_doc/route.ts:99-100 | text without commas is unchanged |
| UploadDoc.TrailingCommaDropped | app/api/upload_doc/route.ts:100 | "[1, \n]" becomes "[1]" |
| UploadDoc.NatToString | app/api/upload_doc/route.ts:113 | the decimal rendering is non-empty and all digits |
| UploadDoc.DecimalRoundTrip | app/api/upload_doc/route.ts:113 | reading the rendering back gives the number |
| UploadDoc.NatToStringInjective | app/api/upload_doc/route.ts:113 | different numbers render differently |
| UploadDoc.ChunkId | app/api/upload_doc/route.ts:113 | `chunk_<hash>_<i>_<j>` with decimal indices; `ChunkIdInjective` is about it |
| UploadDoc.ChunkIdInjective | app/api/upload_doc/route.ts:27-113 | for hashes of one length, ids are equal exactly when hash, split index and item index are |
| UploadDoc.SourceName | app/api/upload_doc/route.ts:134 | the file name, or "uploaded_pdf" when it is empty; never empty |
| UploadDoc.MergeMetadata | app/api/upload_doc/route.ts:131-135 | keys are the spread metadata keys plus "text" and "source"; those two win; other keys keep their values |
| UploadDoc.VectorIndex.Upsert | app/api/upload_doc/route.ts:127-137 | appends the record to the index |
| UploadDoc.Caught | app/api/upload_doc/route.ts:171-173 | status 500 with the error's message, or the default text for an empty one |
| UploadDoc.NonNullPrefix | app/api/upload_doc/route.ts:111-124 | the items before the first `null`, whose `.text` throws |
| UploadDoc.ItemRecordsNext | app/api/upload_doc/route.ts:111-137 | storing one more item appends its record, under id `chunk_<hash>_<i>_<j>` |
| UploadDoc.Turn | app/api/upload_doc/route.ts:102-142 | one turn of the outer loop on a parsed reply: store its items, or stop with the exception's response; `StoppedStays`, `StateAfterShape` and `ProcessReply` are about it |
| UploadDoc.StoppedStays | app/api/upload_doc/route.ts:102-143 | once an exception stops the loop, no later reply stores anything |
| UploadDoc.StoppedFinish | app/api/upload_doc/route.ts:102-173 | a stopped loop ends with the records stored before the exception and the exception's response |
| UploadDoc.StateAfterShape | app/api/upload_doc/route.ts:102-142 | the loop is still running exactly when every reply so far was an array without `null` items; then one record is stored per item collected; a stopped loop has failed with 500 |
| UploadDoc.ReportedCount | app/api/upload_doc/route.ts:142-170 | on success the count reported is the number of records stored plus one |
| UploadDoc.ChunkLoopSucceedsIff | app/api/upload_doc/route.ts:102-143 | the upload succeeds exactly when every reply parses to an array with no `null` item; otherwise 500 |
| UploadDoc.StoredIdsDistinct | app/api/upload_doc/route.ts:44-142 | after any number of replies, the stored ids are distinct and each names an item of an earlier reply |
| UploadDoc.UploadIdsDistinct | app/api/upload_doc/route.ts:113-129 | no two stored records share an id |
| UploadDoc.StoreItems | app/api/upload_doc/route.ts:111-140 | appends the records of the items before the first `null`, and reports whether there was none |
| UploadDoc.ProcessReply | app/api/upload_doc/route.ts:102-142 | one turn of the loop: the records stored, whether it stops, and with which response, are those of the turn function |
| UploadDoc.ProcessChunks | app/api/upload_doc/route.ts:44-143 | the records stored and the response are those of the chunk loop |
| UploadDoc.UploadOutcome | app/api/upload_doc/route.ts:15-175 | the records the endpoint stores and its response; `ChunkLoopSucceedsIff`, `ReportedCount` and `UploadIdsDistinct` are about it, and `Post` computes it |
| UploadDoc.Post | app/api/upload_doc/route.ts:15-175 | the records stored and the response are `UploadOutcome`'s |
| QueryAi.MatchTexts | app/api/query_ai/route.ts:32 | one text per match, in order; an absent text is "" |
| QueryAi.Context | app/api/query_ai/route.ts:32 | the match texts joined by line feeds; `ContextAppend` and `ContextOfOne` are about it |
| QueryAi.ContextAppend | app/api/query_ai/route.ts:32 | each further match adds a line with its text at the end of the context |
| QueryAi.ContextOfOne | app/api/query_ai/route.ts:32 | one match's text is the whole context |
| QueryAi.Prompt | app/api/query_ai/route.ts:38 | the message is the lead, the query, the "Data:" heading and the context, at fixed offsets |
| QueryAi.PromptInjective | app/api/query_ai/route.ts:38 | for queries of one length, equal messages mean equal query and context |
| QueryAi.PollResult | app/api/query_ai/route.ts:45-58 | an answer is never empty; the loop is still polling exactly when no poll stops it |
| QueryAi.Stops | app/api/query_ai/route.ts:46-57 | a poll ends the loop when it throws, or when the run is "completed" with anything but an empty text (other content throws); `FirstStopDecides` is about it |
| QueryAi.FirstStop | app/api/query_ai/route.ts:46-57 | the first poll that stops the loop |
| QueryAi.FirstStopDecides | app/api/query_ai/route.ts:46-57 | the first stopping poll decides the outcome; other statuses, such as "failed", only poll again |
| QueryAi.PollRun | app/api/query_ai/route.ts:45-58 | the loop ends as `PollResult` says |
| QueryAi.QueryOutcome | app/api/query_ai/route.ts:8-66 | the query searched, the message sent and the response; `QueryRequiredIff`, `NoDataIff`, `SentMessage`, `AnswerIsFirstCompletedText` and `ServerErrorIff` are about it, and `Post` computes it |
| QueryAi.Post | app/api/query_ai/route.ts:8-66 | the query searched, the message sent and the response are `QueryOutcome`'s |
| QueryAi.QueryRequiredIff | app/api/query_ai/route.ts:10-11 | 400 exactly for a missing or empty query, and then nothing is searched or sent |
| QueryAi.NoDataIff | app/api/query_ai/route.ts:28-30 | 404 exactly when a valid query finds no match, and then nothing is sent |
| QueryAi.SentMessage | app/api/query_ai/route.ts:32-39 | a message is sent exactly for a valid query with matches, and it is the prompt from their texts |
| QueryAi.AnswerIsFirstCompletedText | app/api/query_ai/route.ts:49-53 | a 200 answer is the non-empty text of the first stopping poll, which saw "completed" |
| QueryAi.ServerErrorIff | app/api/query_ai/route.ts:9-65 | 500 exactly for an unreadable body, a failed search, or a poll loop that threw |
| Text.Trim | app/agents/QueryExpanderAgent.ts:44 | the result has no whitespace at either end and is a slice with only whitespace around it |
| Text.Lower | app/agents/QueryExpanderAgent.ts:11 | ASCII `toLowerCase`: same length, each character lower-cased; `CaseInsensitive` uses it |
| Text.TrimIdempotent | app/agents/RouterAgent.ts:59 | trimming twice is trimming once |
| Text.Contains | app/agents/QueryExpanderAgent.ts:12 | `includes`; `ContainsIff` is about it |
| Text.ContainsIff | app/agents/QueryExpanderAgent.ts:12 | `includes` is an occurrence at some index |
| Text.Join | app/api/query_ai/route.ts:32 | `join`; `JoinAppend` and `JoinLength` are about it |
| Text.JoinAppend | app/api/query_ai/route.ts:32 | joining one more part adds the separator and the part at the end |
| Text.JoinLength | app/api/upload_doc/route.ts:31 | the length is the parts' lengths plus one separator per neighbouring pair |

## Left out

- The foreign services are parameters or absent: OpenAI chat completions, embeddings and assistants, Pinecone upsert and query, the LangChain PDF loader and text splitter, `JSON.parse`, MD5 hashing, temporary files, the embedding vectors stored with each record, and `console` logging. The wording of the prompts sent to the language model in the agents and the upload endpoint is not modelled; only the query endpoint's prompt is.
- `toLowerCase` is ASCII-only. A non-ASCII letter is left unchanged, while JavaScript would lower-case it. Strings are sequences of characters, not of UTF-16 code units.
- The middleware `matcher` configuration and the redirect URL's origin are not modelled; the model redirects to the path "/locked".
- Requests are sequential. Concurrent requests sharing the memory map are not modelled.
- FillerSentences.DrawWithoutReplacement: `count` is an integer. A fractional count, for which the loop runs `ceil(count)` rounds, is not modelled.
- UploadDoc.SpreadProperties spreads only object metadata. A string or an array under `metadata`, which `...` would spread into index keys, contributes nothing. JSON numbers are integers.
- UploadDoc: an item that is not `null` but has no usable `text` is stored. Its embedding request, which the service may refuse, is not modelled. Failures of `formData`, the PDF loader, the splitter, the completion calls, the embedding service and the upsert are not modelled. Each of them is caught like the errors that are, with status 500.
- UploadDoc: the people-summary record (lines 145-168) is never stored, because the set of people is never filled. The `+ 1` in the reported count is still there.
- QueryAi: failures while creating the thread, the message or the run are not modelled. They are caught with status 500 like the others. A `query` that is not a string is not modelled. The poll loop runs over a finite sequence of polls; when every poll keeps it going, the response is `Pending`. The source would poll forever.
- Facts about the code that the model follows:
  - RouterAgent: `RouteQuery` never reads or writes the entity memory, because `RouterAgent.ts` does not import `contextMemory.ts`. No routing falls back on a remembered entity.
  - QueryAi: the query endpoint returns one JSON response. It does not stream, and it emits no readiness marker.
  - ContextMemory: the time-to-live is a fixed fifteen minutes (`contextMemory.ts` line 9).
- RouterAgent.RouteQuery: `routeQuery` and `expandQuery` have no `try`/`catch`. A rejected completion call, or a reply with an empty `choices` list (`RouterAgent.ts` lines 59 and 96, `QueryExpanderAgent.ts` line 44), makes `routeQuery` reject. `Routing` has no failure outcome, so these rejections are not modelled; the replies are the `content` of the first choice, present or not.
- QueryAi: a match's `metadata.text` is a string or absent. The upload stores `chunk.text` as it is, so it could be a JSON number or object; `join` would then use its string form (`route.ts` line 32). Such non-string texts are not modelled.
