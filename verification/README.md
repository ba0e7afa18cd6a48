# IOC.EAssistant, modelled in Dafny

IOC.EAssistant is a chat assistant for the Institut Obert de Catalunya. It has
three parts, and this project models the sequential core of each as pure
functions over immutable data:

- **The Python RAG service.**
  - The `/chat` handler: request validation, history extraction, token
    accounting and the response shape.
  - The `RAGAgent`: message assembly, one persisted turn per query, the
    history accessors and the document searches.
  - The reranking body of the retrieval tool.
  - The `DatabaseManager` conversation store, modelled as an append-only
    sequence of turns.
  - The text formatters of `utils.py`.
- **The C# gateway library.**
  - The chat orchestration `ServiceChat.ChatAsync`: validate, health check,
    prepare the conversation context, ask the model, build the question
    entity, then route persistence three ways.
  - The mappers and validators.
  - The cascading save services Session → Conversation → Question → Answer,
    over a repository modelled as one finite map per table. Each insert's
    reply (a row count or an exception) is an input, and every insert
    attempted is recorded in a write log. A save skips the insert of an entity
    its existence lookup finds. For questions and conversations that lookup is
    the repository's `GetAsync`, whose inner joins find a question only with an
    answer row and a conversation only with an answered question; a session
    save always inserts.
  - The `OperationResult` accumulator and its 200/400/500 status choice.
  - The middleware's exception classifier, which picks HTTP status codes as
    in section 15 of RFC 9110.
  - The URI path join.
  - The row grouping of the two `GetAsync` readers, over abstract joined rows.
- **The chat widget.** The configuration merge `resolveConfig`.

Each source file has one module (`ChatEndpoint`, `RagAgent`, `Rerank`,
`ConversationStore`, `Formatters`, `ServiceChat`, `ChatMapper`,
`ValidatorChat`, `ServiceAnswer`, `ServiceQuestion`, `ServiceConversation`,
`ServiceSession`, `ServiceBase`, `ServiceHealthCheck`, `OperationResults`,
`ExceptionMiddleware`, `UriExtension`, `ConversationReader`, `SessionReader`,
`WidgetConfig`). Shared definitions live in `Common`, `Entities` and
`Repository`.

Some things the code reaches are not modelled and become parameters instead:
- the language model;
- the reranking scorer;
- the tokenizer;
- the health probe;
- the proxy;
- the vector store;
- the clock;
- fresh GUIDs.

## Model

| member | source | states |
|---|---|---|
| ChatEndpoint.TotalContent | python/app.py:196-199 | the content sum raises exactly when some message has a `null` question or answer |
| ChatEndpoint.TotalContentCounts | python/app.py:196-199 | without `null` fields the sum is the total question and answer length over all messages |
| ChatEndpoint.ExtractHistory | python/app.py:211-216 | the history has at most as many entries as the messages before the last one; every entry has a non-empty question and answer; when all qualify, the history is all of them in order; ExtractHistorySnoc fixes the order of a filtered history |
| ChatEndpoint.ExtractHistorySnoc | python/app.py:211-216 | one more message adds its pair at the end exactly when both its question and answer are non-empty, and adds nothing otherwise, so the history is the qualifying pairs in message order |
| ChatEndpoint.ExtractHistoryMembers | python/app.py:211-216 | an exchange is in the history exactly when some earlier message has both fields non-empty and equal to it |
| ChatEndpoint.Validate | python/app.py:178-219 | an accepted request has 1 to 50 messages, total content of at most 100000, the stripped non-empty last question, and the filtered history of the earlier messages |
| ChatEndpoint.ValidationChain | python/app.py:179-208 | each 400 refusal (not JSON, no messages, more than 50 messages, content over 100000, blank last question) happens exactly under its condition, taken in source order; a body that raises gives 500 |
| ChatEndpoint.PassingChecksAccepted | python/app.py:185-219 | a body whose messages pass every check and whose modelConfig is usable is accepted with the stripped last question, the history of the earlier turns and the configured temperature |
| ChatEndpoint.PromptText | python/app.py:239 | with no history the prompt text is the question alone |
| ChatEndpoint.PromptTextLength | python/app.py:239 | the prompt is every history question and answer followed by the current question, so its length is their total length |
| ChatEndpoint.SuccessBody | python/app.py:239-265 | exactly one choice (index 0, role "assistant", finish reason "stop", the answer as content); prompt tokens count the prompt text, completion tokens the answer; the total is their sum |
| ChatEndpoint.Refusal | python/app.py:178-270 | a rejected request gets 400 with its message; a crash gets 500 with the fixed message, never the exception text |
| ChatEndpoint.Chat | python/app.py:178-269 | refusals as validated; a failing agent call gives 500 with the fixed message; otherwise the success body for the agent's answer |
| ChatEndpoint.ChatAsWritten | python/app.py:223-270 | as written, every request that passes validation gets 500, because the agent method called does not exist |
| ChatEndpoint.ChatReplies | python/app.py:245-269 | every reply is a 400, a 500 with the fixed message, or a success with one assistant choice |
| ChatEndpoint.AsWrittenAgreesOnRefusals | python/app.py:178-208 | on requests refused before the agent call, the code as written and the corrected handler give the same reply |
| ChatEndpoint.AsWrittenRejectsValidRequest | python/app.py:223-228 | a one-message request "Hola" is accepted by validation and still gets 500 as written |
| ChatEndpoint.CorrectedAnswersValidRequest | python/app.py:223-255 | the corrected handler answers that request with the agent's text, counting the prompt tokens of "Hola" |
| Common.Join | python/utils.py:233 | joining no parts gives "", one part gives that part |
| Common.JoinSnoc | python/utils.py:233 | joining one more part adds the separator and the part at the end |
| Common.NatToString | python/utils.py:223 | a number renders as a non-empty run of decimal digits without a leading zero, and those digits read left to right denote the number |
| Common.PyStrip | python/app.py:205 | the stripped text neither starts nor ends with Python whitespace |
| Common.PyStripEmptyIff | python/app.py:205-208 | a question strips to "" exactly when it is all whitespace |
| Rerank.RerankInput | python/rag_agent.py:112 | the scorer sees the query, " [SEP] " and at most the first 512 characters of the document |
| Rerank.ScoreCandidates | python/rag_agent.py:108-117 | the scored list keeps, in order, the candidates whose scoring succeeded, each with its score; no other documents |
| Rerank.ScoredPrefixKeepsScored | python/rag_agent.py:109-117 | a candidate whose scoring succeeds is kept even when other candidates fail |
| Rerank.InsertDescPerm | python/rag_agent.py:120 | inserting into the sorted list adds exactly that element |
| Rerank.InsertDescSorted | python/rag_agent.py:120 | insertion keeps the list in non-increasing score order |
| Rerank.InsertDescStable | python/rag_agent.py:120 | insertion puts the new element after the equal scores already there |
| Rerank.SortDescCorrect | python/rag_agent.py:120 | the sort is a permutation, non-increasing by score, and stable: for every score the elements with it keep their input order |
| Rerank.RetrieveContext | python/rag_agent.py:99-124 | the store is asked for `2*k` candidates; at most `k` documents come back, all from the candidates, being the first `k` of the stable descending sort; the serialized text is their formatted context |
| Rerank.RerankOrder | python/rag_agent.py:120 | the ranked list is a stable, non-increasing permutation of the scored candidates |
| RagAgent.TurnMessages | python/rag_agent.py:189-191 | each stored turn becomes a human message then an AI message, in turn order |
| RagAgent.Framed | python/rag_agent.py:183-194 | the list is the first message, the history from oldest to newest as human/AI pairs, then the last message |
| RagAgent.BuildMessages | python/rag_agent.py:183-194 | the list has length 2 + 2·\|history\|: the system line naming the user, the history reversed into chronological order as human/AI pairs, then the question |
| RagAgent.Query | python/rag_agent.py:171-204 | the model sees the messages built from the user's five newest turns; on an answer, exactly that turn is appended to the store and to the in-memory history; a failing history read, model call or save raises at that step and changes neither the store nor the in-memory history |
| RagAgent.QueryContextBounded | python/rag_agent.py:186-194 | the message list holds at most five stored turns of that user |
| RagAgent.QueryThenHistory | python/rag_agent.py:198-225 | after a query, the user's stored history starts with the new turn followed by the earlier ones (capped at 100), and the in-memory history ends with it |
| RagAgent.StoredHistoryAfterSave | python/rag_agent.py:222-225 | one more stored turn shows first in the user's history, followed by what the history showed before |
| RagAgent.ClearHistory | python/rag_agent.py:206-209 | clearing empties the in-memory history and leaves the store alone |
| RagAgent.GetHistory | python/rag_agent.py:211-225 | with a user id, at most 100 of that user's pairs, newest first; with none or an empty id, the in-memory history |
| RagAgent.ClearThenGetHistory | python/rag_agent.py:206-225 | after clearing, the in-memory history is empty and the stored history of a user is unchanged |
| RagAgent.GetUserConversationHistory | python/rag_agent.py:227-246 | one record of question, answer and timestamp per stored turn of the user, newest first, at most `limit` of them |
| RagAgent.HistoryToolEmpty | python/rag_agent.py:139-143 | the history tool gives the "No conversation history found" line exactly when the user has no turns or the limit is 0 |
| RagAgent.SearchDocuments | python/rag_agent.py:248-265 | the search uses the given `k`, falling back to `k_results` when it is absent or 0; a filter is passed only when it is non-empty |
| RagAgent.SearchByMetadata | python/rag_agent.py:267-281 | an empty query with a one-key filter on the given key and value |
| RagAgent.MetadataSearchIsFilteredSearch | python/rag_agent.py:260-281 | a metadata search is the document search with an empty query and that one-key filter |
| ConversationStore.OfUser | python/utils.py:83-89 | the selected rows belong to the user and are no more than the store holds |
| ConversationStore.OfUserMembers | python/utils.py:83-89 | a turn is selected exactly when it is stored and belongs to the user |
| ConversationStore.OfUserSnoc | python/utils.py:61-89 | a new turn adds to the selection exactly when it belongs to the user |
| ConversationStore.OfUserAppend | python/utils.py:83-89 | selecting from two stores in sequence is selecting from each |
| ConversationStore.SaveConversation | python/utils.py:49-67 | saving appends exactly one turn and keeps the earlier turns |
| ConversationStore.LimitCount | python/utils.py:88 | `LIMIT n` keeps at most `n` rows, and a negative limit keeps all of them |
| ConversationStore.NewestFirstReversesOfUser | python/utils.py:87 | newest first is the user's turns in reverse insertion order |
| ConversationStore.GetUserHistory | python/utils.py:69-94 | only that user's rows, newest first, as many as the limit allows |
| ConversationStore.SaveThenReadNewestFirst | python/utils.py:61-89 | after a save, the user's history starts with the saved turn |
| ConversationStore.GetUserHistorySnoc | python/utils.py:61-89 | after a save, the user's history is the saved turn followed by the history before, cut to the limit |
| ConversationStore.SaveLeavesOtherUsers | python/utils.py:61-89 | a save does not change another user's history |
| ConversationStore.DeleteUserHistory | python/utils.py:96-112 | exactly the user's turns are removed |
| ConversationStore.DeleteKeepsOthers | python/utils.py:106-109 | after deletion the user has no turns and every other user keeps theirs |
| ConversationStore.GetAllUsers | python/utils.py:114-132 | each user with a stored turn is listed, once |
| Formatters.PySliceStart | python/utils.py:150 | the start index of `history[-n:]` follows Python's slice clamping for both signs |
| Formatters.FormatConversationHistory | python/utils.py:146-153 | empty history gives "No previous conversation."; otherwise the exchanges of `history[-max_exchanges:]`, each "User: …\nAssistant: …", joined by a blank line: the last `max_exchanges` for a positive limit, all of them for 0, and all but the first `-max_exchanges` for a negative one |
| Formatters.DisplayEntries | python/utils.py:174-177 | entry `i` (from 1) shows the `i`-th oldest row of the newest-first input |
| Formatters.FormatDbHistoryForDisplay | python/utils.py:170-179 | empty history gives the "No conversation history found for user" line; otherwise the heading and the entries in chronological order |
| Formatters.DisplayNewestLast | python/utils.py:174-177 | a newer row at the head of the input is displayed last, numbered after the others |
| Formatters.DisplayEntriesCons | python/utils.py:174-177 | with a newer row at the head of the newest-first history, the entries are the old ones unchanged followed by the new row under the next number |
| Formatters.SourceInfo | python/utils.py:212-218 | title, type and date appear in that order, each only when present and non-empty |
| Formatters.SourceHeader | python/utils.py:220 | with no such fields the header is "Font IOC"; with all three they are joined by " \| " |
| Formatters.Blocks | python/utils.py:207-231 | one block per document numbered from the first index, with the source header when metadata is included and present |
| Formatters.FormatDocumentContext | python/utils.py:205-233 | no documents give ""; one document without metadata gives "=== Document 1 ===\n" + content + "\n" |
| Formatters.FormatAppendsInOrder | python/utils.py:207-233 | one more document appends a newline and its block, numbered `n + 1` |
| ChatMapper.MapToProxyRequest | IOC.EAssistant.Gateway/IOC.EAssistant.Gateway.Library.Implementation/Mappers/ChatMapper.cs:36 | the proxy request carries the given messages unchanged |
| ChatMapper.MapToResponseDto | IOC.EAssistant.Gateway/IOC.EAssistant.Gateway.Library.Implementation/Mappers/ChatMapper.cs:52-59 | choices and usage are copied unchanged, and both ids are set |
| ChatMapper.MapQuestionsToMessages | IOC.EAssistant.Gateway/IOC.EAssistant.Gateway.Library.Implementation/Mappers/ChatMapper.cs:85-92 | the same length and order; each message copies index, content as the question, answer content, and metadata |
| ChatMapper.MapQuestionsAppend | IOC.EAssistant.Gateway/IOC.EAssistant.Gateway.Library.Implementation/Mappers/ChatMapper.cs:85-92 | mapping two lists in sequence is mapping each |
| ChatMapper.UpdateMessageIndex | IOC.EAssistant.Gateway/IOC.EAssistant.Gateway.Library.Implementation/Mappers/ChatMapper.cs:104 | the index becomes `currentCount + 1`, nothing else changes |
| ChatMapper.CreateConversationEntity | IOC.EAssistant.Gateway/IOC.EAssistant.Gateway.Library.Implementation/Mappers/ChatMapper.cs:118 | only the session id is set; the id keeps its default (empty GUID) and there are no questions |
| ChatMapper.CreateSessionEntityAsWritten | IOC.EAssistant.Gateway/IOC.EAssistant.Gateway.Library.Implementation/Mappers/ChatMapper.cs:133-138 | as written, the session has a fresh id and exactly the one conversation |
| ChatMapper.AsWrittenSessionOrphansConversation | IOC.EAssistant.Gateway/IOC.EAssistant.Gateway.Library.Implementation/Mappers/ChatMapper.cs:133-138 | as written, the new session's id differs from the session id its conversation points to |
| ChatMapper.CreateSessionEntity | IOC.EAssistant.Gateway/IOC.EAssistant.Gateway.Library.Implementation/Mappers/ChatMapper.cs:133-138 | the session holds exactly the conversation, and every conversation it holds points back to it |
| ChatMapper.CreateSessionEntityDiffersOnlyInId | IOC.EAssistant.Gateway/IOC.EAssistant.Gateway.Library.Implementation/Mappers/ChatMapper.cs:133-138 | the corrected session is the as-written one with its id replaced by the conversation's session id |
| ChatMapper.CreateQuestionEntity | IOC.EAssistant.Gateway/IOC.EAssistant.Gateway.Library.Implementation/Mappers/ChatMapper.cs:168-198 | index, text and metadata come from the message; the question counts prompt tokens; its answer points back to it, holds the first choice's text, the completion tokens and the reply's metadata |
| ChatMapper.CreatedQuestionReadsBack | IOC.EAssistant.Gateway/IOC.EAssistant.Gateway.Library.Implementation/Mappers/ChatMapper.cs:168-198 | mapping the created question back gives the message with the model's answer filled in |
| ValidatorChat.ValidateRequest | IOC.EAssistant.Gateway/IOC.EAssistant.Gateway.Library.Implementation/Validators/ValidatorChat.cs:76-98 | at most two errors: the missing-ids error first exactly when both ids are absent; then "no messages" exactly when there are none, else the blank-question error exactly when some question is blank; empty exactly for a valid request |
| ValidatorChat.ValidateRequestCounts | IOC.EAssistant.Gateway/IOC.EAssistant.Gateway.Library.Implementation/Validators/ValidatorChat.cs:78-97 | the error count is one per failed check, with at most one about the messages |
| ValidatorChat.ValidateModelResponse | IOC.EAssistant.Gateway/IOC.EAssistant.Gateway.Library.Implementation/Validators/ValidatorChat.cs:139-154 | a missing response gives "Model response is null"; missing or empty choices give the no-choices error; otherwise nothing, and never more than one error |
| ServiceBase.SearchingForIdErrorResult | IOC.EAssistant.Gateway/IOC.EAssistant.Gateway.Library.Implementation/Services/ServiceBase.cs:29 | the not-found message names the entity type and the id |
| ServiceBase.ActionErrorResult | IOC.EAssistant.Gateway/IOC.EAssistant.Gateway.Library.Implementation/Services/ServiceBase.cs:36 | the message names the action and the entity type; the title is the action |
| ServiceBase.ActionSavingResult | IOC.EAssistant.Gateway/IOC.EAssistant.Gateway.Library.Implementation/Services/ServiceBase.cs:47 | the message is "{parent} but {child} failed to save.", titled "multiple entity saving" |
| ServiceBase.Get | IOC.EAssistant.Gateway/IOC.EAssistant.Gateway.Library.Implementation/Services/ServiceBase.cs:65-93 | a found entity is the result with no errors; not found gives exactly the not-found error; a repository fault gives one error and one exception |
| ServiceBase.GetStatus | IOC.EAssistant.Gateway/IOC.EAssistant.Gateway.Library.Implementation/Services/ServiceBase.cs:73-90 | found, not found and fault map to 200, 400 and 500 respectively, each exactly |
| ServiceBase.Delete | IOC.EAssistant.Gateway/IOC.EAssistant.Gateway.Library.Implementation/Services/ServiceBase.cs:110-129 | the result is whether rows were affected, with no errors; a fault gives false, one error and one exception |
| ServiceAnswer.SaveAnswer | IOC.EAssistant.Gateway/IOC.EAssistant.Gateway.Library.Implementation/Services/ServiceAnswer.cs:40-79 | a stored answer gives true with no write; otherwise one insert; the count decides true or false with no errors; an exception gives false, one error and one exception; success means the answer is stored |
| ServiceAnswer.SaveAnswerIdempotent | IOC.EAssistant.Gateway/IOC.EAssistant.Gateway.Library.Implementation/Services/ServiceAnswer.cs:48-56 | saving again after a success writes nothing and succeeds |
| ServiceAnswer.NewAnswers | IOC.EAssistant.Gateway/IOC.EAssistant.Gateway.Library.Implementation/Services/ServiceAnswer.cs:115-127 | the new answers are exactly those of the input not yet stored |
| ServiceAnswer.NewAnswersAppend | IOC.EAssistant.Gateway/IOC.EAssistant.Gateway.Library.Implementation/Services/ServiceAnswer.cs:115-127 | the filter keeps input order |
| ServiceAnswer.SaveAnswers | IOC.EAssistant.Gateway/IOC.EAssistant.Gateway.Library.Implementation/Services/ServiceAnswer.cs:106-155 | nothing new gives true with no write; otherwise one batch insert of exactly the new answers; a count of 0 gives false with no errors; an exception gives false, one error and one exception; other tables never change |
| ServiceAnswer.SaveAnswersIdempotent | IOC.EAssistant.Gateway/IOC.EAssistant.Gateway.Library.Implementation/Services/ServiceAnswer.cs:115-134 | saving the batch again after a success writes nothing and succeeds |
| ServiceAnswer.NoNewAnswers | IOC.EAssistant.Gateway/IOC.EAssistant.Gateway.Library.Implementation/Services/ServiceAnswer.cs:115-134 | when every answer is stored, none counts as new |
| ServiceQuestion.AnswerStep | IOC.EAssistant.Gateway/IOC.EAssistant.Gateway.Library.Implementation/Services/ServiceQuestion.cs:94-107 | no answer gives true; otherwise the answer service runs, and its errors become the one "Question but Answer failed to save." error |
| ServiceQuestion.SaveQuestion | IOC.EAssistant.Gateway/IOC.EAssistant.Gateway.Library.Implementation/Services/ServiceQuestion.cs:64-118 | a question the lookup finds (its row joined with an answer row, IOC.EAssistant.Gateway/IOC.EAssistant.Gateway.Infrastructure.Implementation/Databases/EAssistant/DatabaseEAssistantQuestion.cs:36-47) skips its insert and goes to the answer; any other question, including one whose row is stored without an answer row, is inserted first, and a counted insert stores it with the table's default index (IOC.EAssistant.Gateway/IOC.EAssistant.Gateway.Infrastructure.Implementation/Databases/EAssistant/DatabaseEAssistantQuestion.cs:58-67); a count of 0 gives false with no errors and no answer attempt; an exception gives false, one error and one exception |
| ServiceQuestion.SingleInsertDropsIndex | IOC.EAssistant.Gateway/IOC.EAssistant.Gateway.Infrastructure.Implementation/Databases/EAssistant/DatabaseEAssistantQuestion.cs:58-84 | the single insert stores the question with the table's default in place of its index, while the batch insert stores the question as given, so the two differ whenever the index is not that default |
| ServiceQuestion.SaveQuestionByKey | IOC.EAssistant.Gateway/IOC.EAssistant.Gateway.Library.Implementation/Services/ServiceQuestion.cs:54-57 | the save the retry remarks describe: a question whose row is stored skips its insert and goes to the answer; otherwise it is the written save |
| ServiceQuestion.SaveQuestionByKeyAgrees | IOC.EAssistant.Gateway/IOC.EAssistant.Gateway.Library.Implementation/Services/ServiceQuestion.cs:72-92 | the written and the corrected save coincide unless the question row is stored without an answer row; then the written save inserts the question again and the corrected one writes only answers |
| ServiceQuestion.QuestionBeforeAnswer | IOC.EAssistant.Gateway/IOC.EAssistant.Gateway.Library.Implementation/Services/ServiceQuestion.cs:72-107 | a question the lookup does not find is inserted before its new answer, and nothing else is written |
| ServiceQuestion.SilentAnswerFailure | IOC.EAssistant.Gateway/IOC.EAssistant.Gateway.Library.Implementation/Services/ServiceQuestion.cs:94-107 | an answer insert that affects no rows returns false without errors, so once the question step got through (found, or inserted) the question save still succeeds |
| ServiceQuestion.AnswerStepTopDown | IOC.EAssistant.Gateway/IOC.EAssistant.Gateway.Library.Implementation/Services/ServiceQuestion.cs:94-107 | the answer write comes after the question's writes, at the answer depth |
| ServiceQuestion.SaveQuestionTopDown | IOC.EAssistant.Gateway/IOC.EAssistant.Gateway.Library.Implementation/Services/ServiceQuestion.cs:72-107 | the writes go from question to answer, never back up the hierarchy |
| ServiceQuestion.UnansweredQuestionReinserted | IOC.EAssistant.Gateway/IOC.EAssistant.Gateway.Library.Implementation/Services/ServiceQuestion.cs:72-85 | a question whose row is stored without an answer row is inserted again, since the join does not find it; with the database's duplicate-key error that gives false and the saving error, with no answer attempt |
| ServiceQuestion.RetryAfterAnswerFailure | IOC.EAssistant.Gateway/IOC.EAssistant.Gateway.Library.Implementation/Services/ServiceQuestion.cs:54-57 | as written, the retry after an answer insert that stored nothing inserts the question again and, with the duplicate-key error, fails before the answer is tried |
| ServiceQuestion.ByKeyRetrySavesAnswer | IOC.EAssistant.Gateway/IOC.EAssistant.Gateway.Library.Implementation/Services/ServiceQuestion.cs:54-57 | with the key test, that retry writes only the answer, succeeds, and leaves the question readable through the join |
| ServiceQuestion.NewQuestions | IOC.EAssistant.Gateway/IOC.EAssistant.Gateway.Library.Implementation/Services/ServiceQuestion.cs:164-179 | the new questions are exactly the input questions the lookup (with its answers join) does not find, in input order |
| ServiceQuestion.StoredQuestions | IOC.EAssistant.Gateway/IOC.EAssistant.Gateway.Library.Implementation/Services/ServiceQuestion.cs:164-179 | the existing questions are exactly the input questions the lookup finds, in input order |
| ServiceQuestion.PartitionCounts | IOC.EAssistant.Gateway/IOC.EAssistant.Gateway.Library.Implementation/Services/ServiceQuestion.cs:164-179 | new and existing together are the input, as a multiset |
| ServiceQuestion.AnswersOfMembers | IOC.EAssistant.Gateway/IOC.EAssistant.Gateway.Library.Implementation/Services/ServiceQuestion.cs:195-207 | the collected answers are exactly the non-null answers of the questions |
| ServiceQuestion.AnswersOfAppend | IOC.EAssistant.Gateway/IOC.EAssistant.Gateway.Library.Implementation/Services/ServiceQuestion.cs:195-207 | answers are collected list by list, in order |
| ServiceQuestion.AnswersStep | IOC.EAssistant.Gateway/IOC.EAssistant.Gateway.Library.Implementation/Services/ServiceQuestion.cs:209-222 | no answers gives true with no call; otherwise one batch answer save, whose errors become the one cascade error |
| ServiceQuestion.AnswersStepTopDown | IOC.EAssistant.Gateway/IOC.EAssistant.Gateway.Library.Implementation/Services/ServiceQuestion.cs:209-222 | the answer batch keeps the writes going down the hierarchy |
| ServiceQuestion.SaveQuestions | IOC.EAssistant.Gateway/IOC.EAssistant.Gateway.Library.Implementation/Services/ServiceQuestion.cs:155-237 | one batch insert of exactly the new questions, only when there are any; an exception or a count of 0 stops before the answers; then the answers of new questions first, then existing ones |
| ServiceQuestion.SaveQuestionsTopDown | IOC.EAssistant.Gateway/IOC.EAssistant.Gateway.Library.Implementation/Services/ServiceQuestion.cs:181-222 | the batch writes go from questions to answers |
| ServiceQuestion.StoppedBatchTopDown | IOC.EAssistant.Gateway/IOC.EAssistant.Gateway.Library.Implementation/Services/ServiceQuestion.cs:181-190 | a batch that stops at the question insert writes only that insert |
| ServiceQuestion.SaveNoQuestions | IOC.EAssistant.Gateway/IOC.EAssistant.Gateway.Library.Implementation/Services/ServiceQuestion.cs:181-228 | empty input gives true with no write |
| ServiceQuestion.SaveQuestionIdempotent | IOC.EAssistant.Gateway/IOC.EAssistant.Gateway.Library.Implementation/Services/ServiceQuestion.cs:72-107 | saving again after a success writes nothing and succeeds when the question's answer is stored under its id and belongs to it, so that the join finds the question |
| ServiceQuestion.SaveQuestionByKeyIdempotent | IOC.EAssistant.Gateway/IOC.EAssistant.Gateway.Library.Implementation/Services/ServiceQuestion.cs:54-57 | with the key test, saving again after a success, with the answer (if any) stored, writes nothing and succeeds, with or without an answer |
| ServiceQuestion.NoNewQuestions | IOC.EAssistant.Gateway/IOC.EAssistant.Gateway.Library.Implementation/Services/ServiceQuestion.cs:164-179 | when the lookup finds every question, none is new and all are existing |
| ServiceQuestion.QuestionsStoredAfterSuccess | IOC.EAssistant.Gateway/IOC.EAssistant.Gateway.Library.Implementation/Services/ServiceQuestion.cs:164-228 | after a successful batch, every input question is stored |
| ServiceQuestion.SaveQuestionsIdempotent | IOC.EAssistant.Gateway/IOC.EAssistant.Gateway.Library.Implementation/Services/ServiceQuestion.cs:147-152 | saving the batch again after a success writes nothing and succeeds when every question has an answer stored under its id that belongs to it |
| ServiceQuestion.BatchReinsertsUnanswered | IOC.EAssistant.Gateway/IOC.EAssistant.Gateway.Library.Implementation/Services/ServiceQuestion.cs:164-183 | a batch holding a question whose row is stored without an answer row puts it among the new questions and starts with their batch insert |
| ServiceConversation.QuestionsStep | IOC.EAssistant.Gateway/IOC.EAssistant.Gateway.Library.Implementation/Services/ServiceConversation.cs:93-108 | no questions gives true with no call; otherwise one batch question save, whose errors become exactly one error |
| ServiceConversation.QuestionsStepTopDown | IOC.EAssistant.Gateway/IOC.EAssistant.Gateway.Library.Implementation/Services/ServiceConversation.cs:93-108 | the question batch keeps the writes going down the hierarchy |
| ServiceConversation.SaveConversation | IOC.EAssistant.Gateway/IOC.EAssistant.Gateway.Library.Implementation/Services/ServiceConversation.cs:65-112 | a conversation the lookup finds (joined with an answered question, IOC.EAssistant.Gateway/IOC.EAssistant.Gateway.Infrastructure.Implementation/Databases/EAssistant/DatabaseEAssistantConversation.cs:37-50) is not inserted again; any other, including one stored without an answered question, is inserted; a count of 0 gives false with no errors and no questions; an exception propagates to the caller |
| ServiceConversation.SaveConversationByKey | IOC.EAssistant.Gateway/IOC.EAssistant.Gateway.Library.Implementation/Services/ServiceConversation.cs:53-56 | the save the remarks describe: a conversation whose row is stored gets only its questions saved; otherwise it is the written save |
| ServiceConversation.StoredConversationNotReinserted | IOC.EAssistant.Gateway/IOC.EAssistant.Gateway.Library.Implementation/Services/ServiceConversation.cs:71-91 | saving a conversation the lookup finds makes no conversation insert and raises nothing |
| ServiceConversation.UnansweredConversationReinserted | IOC.EAssistant.Gateway/IOC.EAssistant.Gateway.Library.Implementation/Services/ServiceConversation.cs:71-77 | a conversation whose row is stored without an answered question is inserted again, and the database's duplicate-key error propagates |
| ServiceConversation.ByKeyStoredConversationNotReinserted | IOC.EAssistant.Gateway/IOC.EAssistant.Gateway.Library.Implementation/Services/ServiceConversation.cs:53-56 | with the key test, any stored conversation makes no conversation insert and raises nothing; the two saves agree whenever the join finds it |
| ServiceConversation.SaveConversationTopDown | IOC.EAssistant.Gateway/IOC.EAssistant.Gateway.Library.Implementation/Services/ServiceConversation.cs:71-108 | the writes go from conversation to questions to answers |
| ServiceConversation.NewConversations | IOC.EAssistant.Gateway/IOC.EAssistant.Gateway.Library.Implementation/Services/ServiceConversation.cs:156-171 | the new conversations are exactly the input conversations the lookup (with its questions and answers joins) does not find, in input order |
| ServiceConversation.StoredConversations | IOC.EAssistant.Gateway/IOC.EAssistant.Gateway.Library.Implementation/Services/ServiceConversation.cs:156-171 | the existing conversations are exactly the input conversations the lookup finds, in input order |
| ServiceConversation.PartitionCounts | IOC.EAssistant.Gateway/IOC.EAssistant.Gateway.Library.Implementation/Services/ServiceConversation.cs:156-171 | new and existing together are the input, as a multiset |
| ServiceConversation.QuestionsOfAppend | IOC.EAssistant.Gateway/IOC.EAssistant.Gateway.Library.Implementation/Services/ServiceConversation.cs:187-199 | questions are concatenated conversation by conversation, in order |
| ServiceConversation.SaveConversations | IOC.EAssistant.Gateway/IOC.EAssistant.Gateway.Library.Implementation/Services/ServiceConversation.cs:149-222 | one batch insert of exactly the new conversations, only when there are any; an exception propagates; a count of 0 gives false; then the questions of new conversations first, then existing ones |
| ServiceConversation.SaveConversationsTopDown | IOC.EAssistant.Gateway/IOC.EAssistant.Gateway.Library.Implementation/Services/ServiceConversation.cs:173-214 | the batch writes go down the hierarchy |
| ServiceConversation.NothingToSave | IOC.EAssistant.Gateway/IOC.EAssistant.Gateway.Library.Implementation/Services/ServiceConversation.cs:142-143 | when the lookup finds every conversation and none has questions, the batch gives true with no writes |
| ServiceConversation.NoNewConversations | IOC.EAssistant.Gateway/IOC.EAssistant.Gateway.Library.Implementation/Services/ServiceConversation.cs:156-171 | when the lookup finds every conversation, none is new |
| ServiceConversation.NoQuestions | IOC.EAssistant.Gateway/IOC.EAssistant.Gateway.Library.Implementation/Services/ServiceConversation.cs:189-199 | conversations without questions contribute none |
| ServiceConversation.BatchReinsertsUnanswered | IOC.EAssistant.Gateway/IOC.EAssistant.Gateway.Library.Implementation/Services/ServiceConversation.cs:159-175 | a batch holding a conversation stored without an answered question inserts it again, and a throwing insert propagates |
| ServiceSession.ConversationsStep | IOC.EAssistant.Gateway/IOC.EAssistant.Gateway.Library.Implementation/Services/ServiceSession.cs:86-102 | no conversations gives true with no call; otherwise one batch conversation save; its errors give one cascade error and its exception is caught as one error with the exception |
| ServiceSession.ConversationsStepTopDown | IOC.EAssistant.Gateway/IOC.EAssistant.Gateway.Library.Implementation/Services/ServiceSession.cs:86-102 | the conversation batch keeps the writes going down the hierarchy |
| ServiceSession.SaveSession | IOC.EAssistant.Gateway/IOC.EAssistant.Gateway.Library.Implementation/Services/ServiceSession.cs:66-113 | the session is always inserted first, with no existence check; an exception gives false, one error and one exception; a count of 0 gives false with no errors; then the conversations |
| ServiceSession.SaveSessionTopDown | IOC.EAssistant.Gateway/IOC.EAssistant.Gateway.Library.Implementation/Services/ServiceSession.cs:74-102 | the writes go from session down to answers |
| ServiceSession.ConversationExceptionCaught | IOC.EAssistant.Gateway/IOC.EAssistant.Gateway.Library.Implementation/Services/ServiceSession.cs:106-110 | an exception from the conversation cascade is caught and gives false, one error and one exception |
| ServiceSession.ConversationsOfAppend | IOC.EAssistant.Gateway/IOC.EAssistant.Gateway.Library.Implementation/Services/ServiceSession.cs:169-172 | conversations are flattened session by session, in order |
| ServiceSession.ConversationsOfMembers | IOC.EAssistant.Gateway/IOC.EAssistant.Gateway.Library.Implementation/Services/ServiceSession.cs:169-172 | a conversation is flattened exactly when some session holds it |
| ServiceSession.SaveSessions | IOC.EAssistant.Gateway/IOC.EAssistant.Gateway.Library.Implementation/Services/ServiceSession.cs:149-198 | one batch insert of every session; an exception gives false, one error and one exception; a count of 0 gives false; otherwise the flattened conversations |
| ServiceSession.EmptyBatchStillInserts | IOC.EAssistant.Gateway/IOC.EAssistant.Gateway.Library.Implementation/Services/ServiceSession.cs:158-165 | an empty batch still calls the insert, and a count of 0 then gives false |
| ServiceSession.SaveSessionsTopDown | IOC.EAssistant.Gateway/IOC.EAssistant.Gateway.Library.Implementation/Services/ServiceSession.cs:158-187 | the batch writes go down the hierarchy |
| Repository.PutAll | IOC.EAssistant.Gateway/IOC.EAssistant.Gateway.Infrastructure.Implementation/Databases/EAssistant/DatabaseEAssistantSession.cs:109-121 | a batch insert stores every given entity and leaves the others alone |
| ServiceHealthCheck.GetModelHealth | IOC.EAssistant.Gateway/IOC.EAssistant.Gateway.Library.Implementation/Services/ServiceHealthCheck.cs:109-118 | healthy exactly when the status is "healthy"; never an error; a proxy exception propagates |
| ServiceHealthCheck.GetHealth | IOC.EAssistant.Gateway/IOC.EAssistant.Gateway.Library.Implementation/Services/ServiceHealthCheck.cs:60-77 | the response's availability is the model health, with no errors |
| ServiceHealthCheck.HealthIsModelHealth | IOC.EAssistant.Gateway/IOC.EAssistant.Gateway.Library.Implementation/Services/ServiceHealthCheck.cs:72-74 | available exactly when the model health is true |
| ServiceChat.Prepare | IOC.EAssistant.Gateway/IOC.EAssistant.Gateway.Library.Implementation/Services/ServiceChat.cs:200-236 | a found conversation continues: the stored history plus the first request message, renumbered to count + 1; with nothing found, the request messages and an empty conversation in the given or a fresh session, with a fresh id only when no conversation id was given |
| ServiceChat.RouteOf | IOC.EAssistant.Gateway/IOC.EAssistant.Gateway.Library.Implementation/Services/ServiceChat.cs:305-321 | existing conversation, new conversation in a stored session, or new session: exactly one route applies |
| ServiceChat.Persist | IOC.EAssistant.Gateway/IOC.EAssistant.Gateway.Library.Implementation/Services/ServiceChat.cs:300-322 | an existing conversation gets one conversation save; a new one gets a session lookup and then a conversation save when the session exists, else one session save of a new session that holds it under the mapper's fresh id |
| ServiceChat.PersistCorrected | IOC.EAssistant.Gateway/IOC.EAssistant.Gateway.Library.Implementation/Services/ServiceChat.cs:300-322 | the same routes with the corrected session mapper: a new session is saved under the conversation's own session id, holding just that conversation |
| ServiceChat.PersistAsWrittenOrphans | IOC.EAssistant.Gateway/IOC.EAssistant.Gateway.Library.Implementation/Mappers/ChatMapper.cs:133-138 | as written, a conversation whose session is not stored is saved inside a session whose id is not the one the conversation points to, whenever the fresh id differs |
| ServiceChat.PersistCorrectedDiffersOnlyInSessionId | IOC.EAssistant.Gateway/IOC.EAssistant.Gateway.Library.Implementation/Services/ServiceChat.cs:300-322 | the corrected route is the written route run with the conversation's session id as the fresh id, and equals it on the two routes that create no session |
| ServiceChat.Extended | IOC.EAssistant.Gateway/IOC.EAssistant.Gateway.Library.Implementation/Services/ServiceChat.cs:122-124 | exactly one new question, built from the last message, is appended to the conversation |
| ServiceChat.Record | IOC.EAssistant.Gateway/IOC.EAssistant.Gateway.Library.Implementation/Services/ServiceChat.cs:122-136 | persistence errors are copied with the result unset; on success the reply names the conversation and its session |
| ServiceChat.Chat | IOC.EAssistant.Gateway/IOC.EAssistant.Gateway.Library.Implementation/Services/ServiceChat.cs:91-137 | validation errors are returned unchanged with no call made; an unhealthy model gives exactly the "EAssistant API is not available" error after the health call only; a reply with a result has no errors |
| ServiceChat.AskModel | IOC.EAssistant.Gateway/IOC.EAssistant.Gateway.Library.Implementation/Services/ServiceChat.cs:152-170 | the proxy gets the request's own messages; its validation errors are copied with no result; a valid reply goes on to be recorded |
| ServiceChat.AfterHealth | IOC.EAssistant.Gateway/IOC.EAssistant.Gateway.Library.Implementation/Services/ServiceChat.cs:110-112 | the context is prepared before the model is asked, and a failure there propagates |
| ServiceChat.ModelSeesRequestMessages | IOC.EAssistant.Gateway/IOC.EAssistant.Gateway.Library.Implementation/Services/ServiceChat.cs:156 | the model sees the request's messages, not the history-augmented list; only the first message's index may differ |
| ServiceChat.NewQuestionSource | IOC.EAssistant.Gateway/IOC.EAssistant.Gateway.Library.Implementation/Services/ServiceChat.cs:206-233 | the new question comes from the renumbered first request message when continuing, else from the last request message |
| ServiceChat.ReplyNamesConversation | IOC.EAssistant.Gateway/IOC.EAssistant.Gateway.Library.Implementation/Services/ServiceChat.cs:206-233 | a successful reply names the conversation's ids; with only a session id they are that session and the fresh conversation id; a conversation id that was not found gives the empty GUID |
| ServiceChat.ReplyReachesRecord | IOC.EAssistant.Gateway/IOC.EAssistant.Gateway.Library.Implementation/Services/ServiceChat.cs:91-137 | a reply that carries a value implies a valid request, a prepared context and a usable model answer, and is the outcome of recording that answer |
| ServiceChat.QuietSaveStillReplies | IOC.EAssistant.Gateway/IOC.EAssistant.Gateway.Library.Implementation/Services/ServiceChat.cs:126-136 | a session insert that affects no rows is not an error, so the chat still replies with a result |
| ServiceChat.ReadConversationContinues | IOC.EAssistant.Gateway/IOC.EAssistant.Gateway.Library.Implementation/Services/ServiceChat.cs:211-226 | a conversation read back from at least one row always continues: all its questions are answered |
| OperationResults.ToExceptionResult | IOC.EAssistant.Gateway/IOC.EAssistant.Gateway.XCutting.Result/ExceptionResult.cs:38-42 | the message is copied, and a missing stack trace becomes "" |
| OperationResults.New | IOC.EAssistant.Gateway/IOC.EAssistant.Gateway.XCutting.Result/OperationResult.cs:24-28 | a new result has no errors, no exceptions and no value |
| OperationResults.AddResult | IOC.EAssistant.Gateway/IOC.EAssistant.Gateway.XCutting.Result/OperationResult.cs:121-125 | only the value changes |
| OperationResults.AddError | IOC.EAssistant.Gateway/IOC.EAssistant.Gateway.XCutting.Result/OperationResult.cs:161-166 | exactly one error is appended; an exception is appended exactly when one is given |
| OperationResults.AddResultWithError | IOC.EAssistant.Gateway/IOC.EAssistant.Gateway.XCutting.Result/OperationResult.cs:139-150 | setting the value and then adding the error, with its exception when given |
| OperationResults.AddErrors | IOC.EAssistant.Gateway/IOC.EAssistant.Gateway.XCutting.Result/OperationResult.cs:176-180 | all the given errors are appended in order, nothing else changes |
| OperationResults.AddErrorsIsRepeatedAddError | IOC.EAssistant.Gateway/IOC.EAssistant.Gateway.XCutting.Result/OperationResult.cs:161-180 | adding a list of errors is adding them one by one without exceptions |
| OperationResults.ToActionResult | IOC.EAssistant.Gateway/IOC.EAssistant.Gateway.XCutting.Result/OperationResult.cs:199-236 | 500 exactly when there are exceptions, else 400 exactly when there are errors, else 200; the status is recorded; a 500 body is the generic error, never the result |
| OperationResults.StatusIgnoresValue | IOC.EAssistant.Gateway/IOC.EAssistant.Gateway.XCutting.Result/OperationResult.cs:199-205 | the status does not depend on the value |
| OperationResults.AddErrorStatus | IOC.EAssistant.Gateway/IOC.EAssistant.Gateway.XCutting.Result/OperationResult.cs:161-205 | adding an error with an exception gives 500; without one, and with no earlier exceptions, 400 |
| ExceptionMiddleware.GetErrorResponse | IOC.EAssistant.Gateway/IOC.EAssistant.Gateway.Api/Middleware/GlobalExceptionHandlerMiddleware.cs:114-132 | argument and invalid-operation exceptions give 400, not found 404, timeout 408, unauthorized 403, an HTTP error its own status or else 502, anything else 500 with the message shown only in development |
| ExceptionMiddleware.ProductionHidesMessage | IOC.EAssistant.Gateway/IOC.EAssistant.Gateway.Api/Middleware/GlobalExceptionHandlerMiddleware.cs:130 | outside development the response does not depend on the exception's message |
| ExceptionMiddleware.ClientErrorsStayClientErrors | IOC.EAssistant.Gateway/IOC.EAssistant.Gateway.Api/Middleware/GlobalExceptionHandlerMiddleware.cs:118-128 | the named exception classes give 4xx statuses; an HTTP error without a status gives 502 |
| ExceptionMiddleware.HandleException | IOC.EAssistant.Gateway/IOC.EAssistant.Gateway.Api/Middleware/GlobalExceptionHandlerMiddleware.cs:84-107 | the response status is the chosen code, the body carries it and the request path, exactly one error and the exception |
| UriExtension.TrimEnd | IOC.EAssistant.Gateway/IOC.EAssistant.Gateway.Infrastructure.Implementation/Extension/UriExtension.cs:26 | the result is the input without its trailing slashes |
| UriExtension.TrimStart | IOC.EAssistant.Gateway/IOC.EAssistant.Gateway.Infrastructure.Implementation/Extension/UriExtension.cs:26 | the result is the input without its leading slashes |
| UriExtension.Step | IOC.EAssistant.Gateway/IOC.EAssistant.Gateway.Infrastructure.Implementation/Extension/UriExtension.cs:26 | one step is the trimmed current text, one '/', then the trimmed path |
| UriExtension.Append | IOC.EAssistant.Gateway/IOC.EAssistant.Gateway.Infrastructure.Implementation/Extension/UriExtension.cs:26 | no paths leave the absolute URI unchanged |
| UriExtension.AppendSnoc | IOC.EAssistant.Gateway/IOC.EAssistant.Gateway.Infrastructure.Implementation/Extension/UriExtension.cs:26 | paths are applied left to right, one step each |
| UriExtension.SlashRunsCollapse | IOC.EAssistant.Gateway/IOC.EAssistant.Gateway.Infrastructure.Implementation/Extension/UriExtension.cs:15-26 | any run of slashes on either side of a join collapses to one |
| UriExtension.DocumentedExample | IOC.EAssistant.Gateway/IOC.EAssistant.Gateway.Infrastructure.Implementation/Extension/UriExtension.cs:20-24 | "https://example.com/api" with "users", "123" gives "https://example.com/api/users/123" |
| ConversationReader.Attached | IOC.EAssistant.Gateway/IOC.EAssistant.Gateway.Infrastructure.Implementation/Databases/EAssistant/DatabaseEAssistantConversation.cs:112 | the question gets the row's answer |
| ConversationReader.Map | IOC.EAssistant.Gateway/IOC.EAssistant.Gateway.Infrastructure.Implementation/Databases/EAssistant/DatabaseEAssistantConversation.cs:110-116 | the row's conversation gets the row's question, with its answer, as its only question |
| ConversationReader.DistinctFromMembers | IOC.EAssistant.Gateway/IOC.EAssistant.Gateway.Infrastructure.Implementation/Databases/EAssistant/DatabaseEAssistantConversation.cs:60 | every question `DistinctBy` keeps after the seen ids comes from the input and has an id not yet seen |
| ConversationReader.DistinctFromIds | IOC.EAssistant.Gateway/IOC.EAssistant.Gateway.Infrastructure.Implementation/Databases/EAssistant/DatabaseEAssistantConversation.cs:60 | the ids kept are exactly the input's ids that were not yet seen |
| ConversationReader.DistinctFromDistinct | IOC.EAssistant.Gateway/IOC.EAssistant.Gateway.Infrastructure.Implementation/Databases/EAssistant/DatabaseEAssistantConversation.cs:60 | no two kept questions share an id |
| ConversationReader.DistinctFromSnoc | IOC.EAssistant.Gateway/IOC.EAssistant.Gateway.Infrastructure.Implementation/Databases/EAssistant/DatabaseEAssistantConversation.cs:60 | one more question is kept, at the end, exactly when neither the seen ids nor an earlier question have its id, so the result is the first question of each unseen id in input order |
| ConversationReader.DistinctById | IOC.EAssistant.Gateway/IOC.EAssistant.Gateway.Infrastructure.Implementation/Databases/EAssistant/DatabaseEAssistantConversation.cs:60 | the ids are distinct and are exactly the input's ids; every kept question is from the input; DistinctByIdSnoc fixes which occurrence is kept and the order |
| ConversationReader.DistinctByIdSnoc | IOC.EAssistant.Gateway/IOC.EAssistant.Gateway.Infrastructure.Implementation/Databases/EAssistant/DatabaseEAssistantConversation.cs:60 | `DistinctBy` keeps one more question, at the end, exactly when no earlier question has its id: the first occurrence of each id, in input order |
| ConversationReader.DistinctFromUnchanged | IOC.EAssistant.Gateway/IOC.EAssistant.Gateway.Infrastructure.Implementation/Databases/EAssistant/DatabaseEAssistantConversation.cs:60 | questions whose ids already differ pass through unchanged |
| ConversationReader.DistinctByIdempotent | IOC.EAssistant.Gateway/IOC.EAssistant.Gateway.Infrastructure.Implementation/Databases/EAssistant/DatabaseEAssistantConversation.cs:60 | deduplication is idempotent |
| ConversationReader.GroupQuestions | IOC.EAssistant.Gateway/IOC.EAssistant.Gateway.Infrastructure.Implementation/Databases/EAssistant/DatabaseEAssistantConversation.cs:54-59 | the group's questions all carry their answers, at most one per row; GroupQuestionsSnoc and GroupQuestionsOnlyOwnRows fix them as exactly the conversation's rows' questions in row order |
| ConversationReader.GroupQuestionsSnoc | IOC.EAssistant.Gateway/IOC.EAssistant.Gateway.Infrastructure.Implementation/Databases/EAssistant/DatabaseEAssistantConversation.cs:54-59 | one more row adds its answered question at the end exactly when it belongs to the conversation, and nothing otherwise |
| ConversationReader.GroupQuestionsOnlyOwnRows | IOC.EAssistant.Gateway/IOC.EAssistant.Gateway.Infrastructure.Implementation/Databases/EAssistant/DatabaseEAssistantConversation.cs:54-59 | every question of the group is the answered question of some row of that conversation |
| ConversationReader.GroupQuestionsHasRow | IOC.EAssistant.Gateway/IOC.EAssistant.Gateway.Infrastructure.Implementation/Databases/EAssistant/DatabaseEAssistantConversation.cs:54-59 | each row of the conversation contributes its question with its answer |
| ConversationReader.ConversationFromRows | IOC.EAssistant.Gateway/IOC.EAssistant.Gateway.Infrastructure.Implementation/Databases/EAssistant/DatabaseEAssistantConversation.cs:53-65 | no rows give null; otherwise the first row's conversation, with distinct, answered questions whose ids are exactly those of the group; ConversationFromRowsSnoc fixes their order and which answer is kept |
| ConversationReader.ConversationFromRowsSnoc | IOC.EAssistant.Gateway/IOC.EAssistant.Gateway.Infrastructure.Implementation/Databases/EAssistant/DatabaseEAssistantConversation.cs:53-65 | one more row adds its answered question at the end exactly when it belongs to the conversation and its question id is new; otherwise the conversation read is unchanged, so a repeated question keeps the earlier row's answer |
| ConversationReader.OneRowRead | IOC.EAssistant.Gateway/IOC.EAssistant.Gateway.Infrastructure.Implementation/Databases/EAssistant/DatabaseEAssistantConversation.cs:53-65 | a single row is read as its conversation holding just its answered question |
| ConversationReader.ReadQuestionsFromFirstRows | IOC.EAssistant.Gateway/IOC.EAssistant.Gateway.Infrastructure.Implementation/Databases/EAssistant/DatabaseEAssistantConversation.cs:53-65 | each question read is the answered question of the first row of the conversation carrying its id: nothing foreign, and the first answer of a repeated question |
| ConversationReader.ReadKeepsEveryQuestion | IOC.EAssistant.Gateway/IOC.EAssistant.Gateway.Infrastructure.Implementation/Databases/EAssistant/DatabaseEAssistantConversation.cs:46-63 | every row's question id is in the conversation read back |
| SessionReader.AsConversationRow | IOC.EAssistant.Gateway/IOC.EAssistant.Gateway.Infrastructure.Implementation/Databases/EAssistant/DatabaseEAssistantSession.cs:123-131 | the conversation part of a session row is its conversation, question and answer |
| SessionReader.InsertByIndexPerm | IOC.EAssistant.Gateway/IOC.EAssistant.Gateway.Infrastructure.Implementation/Databases/EAssistant/DatabaseEAssistantSession.cs:68 | insertion adds exactly that question |
| SessionReader.InsertByIndexOrdered | IOC.EAssistant.Gateway/IOC.EAssistant.Gateway.Infrastructure.Implementation/Databases/EAssistant/DatabaseEAssistantSession.cs:68 | insertion keeps the questions ordered by index |
| SessionReader.InsertByIndexStable | IOC.EAssistant.Gateway/IOC.EAssistant.Gateway.Infrastructure.Implementation/Databases/EAssistant/DatabaseEAssistantSession.cs:68 | insertion puts the question after those with equal index |
| SessionReader.InsertByIndexDistinct | IOC.EAssistant.Gateway/IOC.EAssistant.Gateway.Infrastructure.Implementation/Databases/EAssistant/DatabaseEAssistantSession.cs:68 | insertion keeps the ids distinct and adds the new id |
| SessionReader.SortByIndexCorrect | IOC.EAssistant.Gateway/IOC.EAssistant.Gateway.Infrastructure.Implementation/Databases/EAssistant/DatabaseEAssistantSession.cs:68 | `OrderBy(q => q.Index)` is a stable permutation ordered by index |
| SessionReader.SortByIndexDistinct | IOC.EAssistant.Gateway/IOC.EAssistant.Gateway.Infrastructure.Implementation/Databases/EAssistant/DatabaseEAssistantSession.cs:67-68 | sorting keeps distinct ids distinct and the same id set |
| SessionReader.SortByIndexAnswered | IOC.EAssistant.Gateway/IOC.EAssistant.Gateway.Infrastructure.Implementation/Databases/EAssistant/DatabaseEAssistantSession.cs:66-68 | sorting keeps every question answered |
| SessionReader.SortByIndexOrderedUnchanged | IOC.EAssistant.Gateway/IOC.EAssistant.Gateway.Infrastructure.Implementation/Databases/EAssistant/DatabaseEAssistantSession.cs:68 | already ordered questions are not reordered |
| SessionReader.SessionGroup | IOC.EAssistant.Gateway/IOC.EAssistant.Gateway.Infrastructure.Implementation/Databases/EAssistant/DatabaseEAssistantSession.cs:55 | the group holds exactly the rows of that session |
| SessionReader.ConversationIds | IOC.EAssistant.Gateway/IOC.EAssistant.Gateway.Infrastructure.Implementation/Databases/EAssistant/DatabaseEAssistantSession.cs:62 | the conversation ids not yet seen, each once, and exactly those of the rows; ConversationIdsSnoc fixes their order as first appearance |
| SessionReader.ConversationIdsSnoc | IOC.EAssistant.Gateway/IOC.EAssistant.Gateway.Infrastructure.Implementation/Databases/EAssistant/DatabaseEAssistantSession.cs:62 | one more row adds its conversation id at the end exactly when neither the seen ids nor an earlier row have it, so `GroupBy` lists conversations in order of first appearance |
| SessionReader.RowsOf | IOC.EAssistant.Gateway/IOC.EAssistant.Gateway.Infrastructure.Implementation/Databases/EAssistant/DatabaseEAssistantSession.cs:60-62 | the conversation's rows, and all of them |
| SessionReader.ReadConversation | IOC.EAssistant.Gateway/IOC.EAssistant.Gateway.Infrastructure.Implementation/Databases/EAssistant/DatabaseEAssistantSession.cs:63-71 | the conversation's fields come from its first row |
| SessionReader.ReadConversationQuestions | IOC.EAssistant.Gateway/IOC.EAssistant.Gateway.Infrastructure.Implementation/Databases/EAssistant/DatabaseEAssistantSession.cs:65-69 | its questions are ordered by index, distinct by id, answered, include every row's question, and each is the answered question of the first row of that conversation carrying its id: nothing else, and the first answer of a repeated question |
| SessionReader.RowsOfSnoc | IOC.EAssistant.Gateway/IOC.EAssistant.Gateway.Infrastructure.Implementation/Databases/EAssistant/DatabaseEAssistantSession.cs:60-62 | one more row joins the conversation's rows, at the end, exactly when it belongs to it |
| SessionReader.ReadFromFirstRows | IOC.EAssistant.Gateway/IOC.EAssistant.Gateway.Infrastructure.Implementation/Databases/EAssistant/DatabaseEAssistantSession.cs:60-65 | before sorting, the questions read for a conversation come from the first rows of that conversation carrying their ids |
| SessionReader.SessionFromRows | IOC.EAssistant.Gateway/IOC.EAssistant.Gateway.Infrastructure.Implementation/Databases/EAssistant/DatabaseEAssistantSession.cs:54-76 | no rows give null; otherwise the first row's session |
| SessionReader.ReadSessionConversationsDistinct | IOC.EAssistant.Gateway/IOC.EAssistant.Gateway.Infrastructure.Implementation/Databases/EAssistant/DatabaseEAssistantSession.cs:60-72 | the session's conversations have distinct ids |
| SessionReader.ReadSessionKeepsEveryRow | IOC.EAssistant.Gateway/IOC.EAssistant.Gateway.Infrastructure.Implementation/Databases/EAssistant/DatabaseEAssistantSession.cs:54-76 | every row of the session shows up as its question in its conversation |
| SessionReader.ReadSessionQuestionsOrdered | IOC.EAssistant.Gateway/IOC.EAssistant.Gateway.Infrastructure.Implementation/Databases/EAssistant/DatabaseEAssistantSession.cs:66-69 | every conversation's questions are ordered, distinct and answered |
| SessionReader.SessionGroupOfOneSession | IOC.EAssistant.Gateway/IOC.EAssistant.Gateway.Infrastructure.Implementation/Databases/EAssistant/DatabaseEAssistantSession.cs:55-58 | rows of one session form one group |
| SessionReader.OtherSessionsIgnored | IOC.EAssistant.Gateway/IOC.EAssistant.Gateway.Infrastructure.Implementation/Databases/EAssistant/DatabaseEAssistantSession.cs:54-74 | only the first session's group is read |
| WidgetConfig.ResolveConfigAsWritten | packages/ioc-chat-widget/src/core/config.ts:12-14 | as written, the keys are the defaults' and the overrides'; every override key wins, even one set to `undefined` |
| WidgetConfig.AsWrittenLosesApiBase | packages/ioc-chat-widget/src/core/config.ts:3-14 | as written, `{apiBase: undefined}` resolves the API base to `undefined`, which the result type rules out |
| WidgetConfig.ResolveConfig | packages/ioc-chat-widget/src/core/config.ts:3-14 | each key an override defines takes its value; every other default is kept |
| WidgetConfig.ResolvedApiBaseSet | packages/ioc-chat-widget/src/core/config.ts:3-4 | the resolved API base, title and placeholder are always set |
| WidgetConfig.NoOverridesGiveDefaults | packages/ioc-chat-widget/src/core/config.ts:6-14 | no overrides or an empty object give the defaults "IOC E-Assistant", "Escribe tu pregunta…" and "mock" |
| WidgetConfig.TokenProviderPassedThrough | packages/ioc-chat-widget/src/core/config.ts:14 | the token provider, which has no default, passes through when given and is absent otherwise |
| WidgetConfig.AgreeWithoutUndefined | packages/ioc-chat-widget/src/core/config.ts:14 | without an explicit `undefined`, the written merge and the intended one agree |
| WidgetConfig.ResolveIdempotent | packages/ioc-chat-widget/src/core/config.ts:12-14 | resolving a resolved configuration changes nothing |

## Left out

- The database is not modelled as SQL. Dapper, Npgsql and the SQL builders are left out: the repositories are maps, each insert's reply is an input, and the readers take the joined rows as their input.
- The `WHERE` and `ORDER BY` clauses of the readers are not modelled. The rows are assumed to be what the query returns.
- ServiceQuestion.SaveQuestion: the single insert's column list has no `index` column (IOC.EAssistant.Gateway/IOC.EAssistant.Gateway.Infrastructure.Implementation/Databases/EAssistant/DatabaseEAssistantQuestion.cs:63-64), so the row stores the table's default there; that default is `Db.questionIndexDefault`, because the table definition is not part of this model.
- ServiceAnswer.SaveAnswer: a fault of the existence lookup `GetAsync` (IOC.EAssistant.Gateway/IOC.EAssistant.Gateway.Library.Implementation/Services/ServiceAnswer.cs:48, :118) is not modelled. It happens inside the try blocks (IOC.EAssistant.Gateway/IOC.EAssistant.Gateway.Library.Implementation/Services/ServiceAnswer.cs:46-76, :113-152), so it would be caught like an insert fault.
- ServiceQuestion.SaveQuestions: a fault of the existence lookup `GetAsync` (IOC.EAssistant.Gateway/IOC.EAssistant.Gateway.Library.Implementation/Services/ServiceQuestion.cs:72, :169) is not modelled. It happens inside the try blocks (IOC.EAssistant.Gateway/IOC.EAssistant.Gateway.Library.Implementation/Services/ServiceQuestion.cs:70-115, :162-234), so it would be caught like an insert fault.
- ServiceConversation.SaveConversation: a fault of the existence lookup `GetAsync` (IOC.EAssistant.Gateway/IOC.EAssistant.Gateway.Library.Implementation/Services/ServiceConversation.cs:71, :161) is not modelled. Those calls are outside any try, so the fault would propagate to the caller as a `Raised` outcome, like an insert fault of this service.
- ServiceChat.Prepare: the conversation lookup and the session lookup are independent inputs, not read from the same database as the saves.
- Time stamps are not modelled: `CreatedAt`, the health check's `Timestamp`, the SQLite `timestamp` default and `processingTime`. "Newest first" is the reverse of insertion order; rows saved within the same second are not tied.
- Logging is left out.
- `DeleteAsync` SQL is left out. Only the result handling of `ServiceBase.DeleteAsync` is modelled.
- Concurrency is left out: the source has no locking.
- These are parameters, not models:
  - the language model and agent invocation;
  - the tokenizer (`encode`);
  - the vector store;
  - the reranking scorer;
  - the health probe;
  - the HTTP proxy.
- Rerank.ScoreCandidates: the relevance score is an integer standing in for the mean of the reranker embedding. The float arithmetic and NaN ordering are left out.
- The reranking closure is not wired in: the source replaces the tool with `create_retriever_tool` right after defining it (python/rag_agent.py:126-132). It is modelled as written, as a standalone operation.
- ChatEndpoint.Validate: the check `request.is_json` and a JSON body that does not parse are modelled only as their outcomes, 400 and 500. Non-string field values are left out.
- RagAgent.Query: the model call is a function from messages to an optional answer. The agent's tools and their interleaving are left out. Store errors are inputs (`StoreFaults`), with no SQLite detail.
- RagAgent.GetHistory: a SQLite error while reading propagates in the source, here and in `get_user_conversation_history`; these two accessors model only the successful read.
- WidgetConfig.ResolveConfig: the token provider is modelled as an opaque name, because the merge never calls it.
- The legacy `gateway/IOC.E-Assistant.WebApi/` tree and the unreferenced `IOC.EAssistant.Gateway.Results` are not part of this model. Neither are the controllers, the bootstrap code and the widget UI.
- ServiceConversation.SaveConversation: the single save reports question failures with the "Question but Answer failed to save." error, exactly as the source does (ServiceConversation.cs:103). The batch save uses "Conversation but Question failed to save.".
- ServiceChat.Prepare: the first request message is renumbered in place, so the renumbered message also reaches the model. This is modelled as the source does it.
- The `Uri` parsing and normalisation done by `new Uri(...)` is not modelled. `Append` works on strings.

## Findings

| source | as written | input that shows it | evidently intended | confidence | as-written member | corrected member |
|---|---|---|---|---|---|---|
| python/app.py:223 | the handler calls `rag_agent.query_with_history`, which `RAGAgent` does not define; the `AttributeError` is caught at line 267 | any valid request, e.g. one message with question "Hola" | answer with the agent's reply for the question and history | high; not executed | ChatEndpoint.AsWrittenRejectsValidRequest | ChatEndpoint.CorrectedAnswersValidRequest |
| IOC.EAssistant.Gateway/IOC.EAssistant.Gateway.Library.Implementation/Mappers/ChatMapper.cs:133-138 | the new session gets `Guid.NewGuid()` as its id, unrelated to the `IdSession` its conversation points to | a chat request with only a `SessionId` that is not stored | the session takes the conversation's session id. The unit test at IOC.EAssistant.Gateway/IOC.EAssistant.Gateway.Library.UnitTests/ServiceChatUnitTests.cs:242-246 expects this, and the persistence doc at IOC.EAssistant.Gateway/IOC.EAssistant.Gateway.Library.Implementation/Services/ServiceChat.cs:271-277 says the session save links the conversation to it. The mapper's own doc comment describes the new id. The service model keeps the written mapper (ServiceChat.Persist); ServiceChat.PersistCorrected is the corrected route | high; not executed | ChatMapper.AsWrittenSessionOrphansConversation | ChatMapper.CreateSessionEntity |
| IOC.EAssistant.Gateway/IOC.EAssistant.Gateway.Library.Implementation/Services/ServiceQuestion.cs:54-57 | `GetAsync` inner-joins the answers table (IOC.EAssistant.Gateway/IOC.EAssistant.Gateway.Infrastructure.Implementation/Databases/EAssistant/DatabaseEAssistantQuestion.cs:36-47), so a question stored without an answer row reads as null, and `SaveAsync` inserts it again, which its primary key rejects | save a question whose question insert succeeds and whose answer insert throws (reported as the cascade error), then save it again | the retry finds the stored question and saves only its answer, as the remarks say. The service model keeps the written lookup; ServiceQuestion.SaveQuestionByKey is the corrected save, and ServiceQuestion.ByKeyRetrySavesAnswer proves the retry | high; not executed | ServiceQuestion.RetryAfterAnswerFailure | ServiceQuestion.SaveQuestionByKey |
| IOC.EAssistant.Gateway/IOC.EAssistant.Gateway.Library.Implementation/Services/ServiceConversation.cs:53-56 | `GetAsync` inner-joins questions and answers (IOC.EAssistant.Gateway/IOC.EAssistant.Gateway.Infrastructure.Implementation/Databases/EAssistant/DatabaseEAssistantConversation.cs:37-50), so a conversation stored without an answered question reads as null, and `SaveAsync` inserts it again; the duplicate-key error propagates | save a conversation whose question batch insert affects no row (which the question service reports without an error), then save it again | a stored conversation gets only its questions saved. The service model keeps the written lookup; ServiceConversation.SaveConversationByKey is the corrected save, and ServiceConversation.ByKeyStoredConversationNotReinserted proves it | high; not executed | ServiceConversation.UnansweredConversationReinserted | ServiceConversation.SaveConversationByKey |
| packages/ioc-chat-widget/src/core/config.ts:14 | the spread copies an explicit `undefined` over the default | `resolveConfig({apiBase: undefined})` | the API base keeps its default, as the result type `Required<Pick<ChatConfig, "apiBase">>` promises | medium; not executed | WidgetConfig.AsWrittenLosesApiBase | WidgetConfig.ResolvedApiBaseSet |
