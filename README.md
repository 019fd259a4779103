# CPSSFA server and client core, modelled in Dafny

This project models the logic at the heart of the CPSSFA game-review server (C#) and of its browser client (JavaScript). It covers:

- **Deferred-event scheduler.** A binary min-heap of events ordered by tick, with per-kind LIFO pools of spent events. `Tick` drains every event due at one clock reading and returns each finished event to its pool. Also the per-type singleton register.
- **Server state machines.** The TTL session registry with lazy eviction and sweeping. The background-manager lifecycle (Start, Stop, Restart and the order of their hooks). The database job batcher, which routes jobs into three sub-queues and flushes them by size or age.
- **Request decoding.**
  - The query-string parser and header lookup.
  - The `sessionId:expiry` token, UTF-8 and then Base64 encoded.
  - The session cookie.
  - The multipart/form-data parser.
  - The magic-byte image validator.
  - The SQL-parameter key normalisation of both data mappers.
- **Routing.** Route normalisation, the verb-to-path-to-action tables of a handler, and the URL-to-handler maps of the event dispatcher and the API handler.
- **Common cache.** The key/value cache and its textual dump.
- **Client logic.**
  - The query-string builder.
  - The page-history stack and the client's token-expiry check.
  - The pagination window.
  - The top-ten lists and page slices.
  - The click handlers of the pager, the star rating and the load-more button.

State that the source mutates in place is modelled as Dafny classes whose methods carry `modifies` clauses: the heap, the scheduler, the session registry, the managers, the dispatchers, the cache, the page stack and the client model. Pure helpers are modelled as functions with lemmas about them.

Time is an integer input:
- milliseconds for the scheduler and the database batcher;
- Unix milliseconds for sessions and tokens.

Locks, tasks and semaphores are dropped, and every operation runs as one sequential step. Reflection-driven registration is replaced by explicit lists of routes and handler types.

## Model

| member | source | states |
|---|---|---|
| HeapQueues.HeapQueue.constructor | Server/Core/HeapQueue.cs:29-32 | a new heap is empty |
| HeapQueues.HeapQueue.Clear | Server/Core/HeapQueue.cs:21 | the heap becomes empty |
| HeapQueues.HeapQueue.Remove | Server/Core/HeapQueue.cs:25 | the first occurrence of the item is taken out of the list with no re-sifting; nothing else changes |
| HeapQueues.RemoveFirst | Server/Core/HeapQueue.cs:25 | removing a present item lowers the length by one and removes exactly one copy from the multiset; an absent item leaves the list unchanged |
| HeapQueues.RemoveBreaksOrder | Server/Core/HeapQueue.cs:25 | a heap-ordered list of four events stops being heap-ordered once its root is removed with Remove |
| HeapQueues.HeapQueue.Peek | Server/Core/HeapQueue.cs:27 | on a non-empty heap returns an element whose tick is no larger than any other; none on an empty heap |
| HeapQueues.RootIsMin | Server/Core/HeapQueue.cs:27 | in a heap-ordered list the root's tick is a lower bound of every element's tick |
| HeapQueues.HeapQueue.Push | Server/Core/HeapQueue.cs:38-42 | adds exactly the item (multiset grows by it, length, which `HeapQueue.Count` reports, by one) and keeps heap order when it held before |
| HeapQueues.HeapQueue.Pop | Server/Core/HeapQueue.cs:48-64 | returns the former root, removes exactly one copy of it (`HeapQueue.Count` drops by one), keeps heap order, and the returned tick bounds every remaining tick |
| HeapQueues.HeapQueue.SiftDown | Server/Core/HeapQueue.cs:74-89 | permutes the list only; moving the item at pos toward the root restores heap order when only that position was out of place |
| HeapQueues.HeapQueue.SiftUp | Server/Core/HeapQueue.cs:94-112 | permutes the list only; sinking the root's hole to a leaf and sifting back restores heap order when only the root was out of place |
| SimEvents.CompareTo | Server/Core/Simulation.Event.cs:20-23 | the sign of the comparison is exactly the order of the two ticks |
| SimEvents.CompareToPreorder | Server/Core/Simulation.Event.cs:20-23 | the comparison is reflexive, antisymmetric and transitive |
| SimEvents.ExecuteOutcome | Server/Core/Simulation.Event.cs:34-43 | the body runs exactly when the precondition holds; the callback fires exactly when the body ran and a callback is set |
| InstanceRegisters.Register.Touch | Server/Core/Simulation.InstanceRegister.cs:11-15 | the first touch of a type creates its slot holding a fresh instance of that type; later touches change nothing |
| InstanceRegisters.Register.GetModel | Server/Core/Simulation.cs:73-76 | returns the type's slot, creating a fresh instance on first use, and leaves the other slots alone |
| InstanceRegisters.Register.SetModel | Server/Core/Simulation.cs:82-85 | overwrites only the type's slot |
| InstanceRegisters.Register.DestroyModel | Server/Core/Simulation.cs:91-94 | empties only the type's slot |
| InstanceRegisters.SetGetDestroy | Server/Core/Simulation.cs:73-94 | a set is seen by the next get, a destroy empties the slot, and other types' slots are unaffected |
| Simulations.Simulation.New | Server/Core/Simulation.cs:18-32 | reuses the most recently pooled event of the kind when there is one (popping it from the pool), otherwise allocates a fresh event and creates the kind's pool on first use |
| Simulations.Simulation.Clear | Server/Core/Simulation.cs:37-40 | the event queue becomes empty |
| Simulations.Simulation.Schedule | Server/Core/Simulation.cs:48-54 | the event comes from New, gets tick now + delay and is added to the queue exactly once; the queue and pools stay disjoint and coherent |
| Simulations.Simulation.Reschedule | Server/Core/Simulation.cs:62-67 | sets tick to now + delay and pushes the event; heap order and distinctness are kept for an event not already queued |
| Simulations.Simulation.ExecuteEvent | Server/Core/Simulation.Event.cs:39-43 | the body runs only when the precondition holds, the callback fires only after the body, and a self-rescheduling body requeues the event at its new tick; for an event not queued whose requeue delay is at least 1, no event becomes due that was not due before |
| Simulations.Simulation.Retire | Server/Core/Simulation.cs:110-126 | an event whose tick moved later is left alone; otherwise it goes back onto its kind's pool when that pool exists and is dropped when it does not |
| Simulations.Simulation.PopEarliest | Server/Core/Simulation.cs:107 | takes the earliest event out of the queue; every remaining event is due no earlier; the popped event leaves the set of events due |
| Simulations.Simulation.RunEarliest | Server/Core/Simulation.cs:105-128 | one pass of the drain loop: pop, execute, retire; the queue gains the event back only when it requeued itself, and later events are due no earlier; with every requeue delay at least 1, the events due afterwards are among those due before, less the popped one |
| Simulations.Simulation.Tick | Server/Core/Simulation.cs:101-130 | stops only when no event is due at the captured time (or the step bound is hit); every popped event is accounted for as requeued, pooled or dropped; pools grow by exactly the retired events; the count returned is the queue's size; events run in due order; when every requeue delay is at least 1 and the bound exceeds the number of events due at the start, the bound is never reached and the loop ends because nothing more is due |
| Simulations.DuePop | Server/Core/Simulation.cs:107 | popping an event off a queue without repeats leaves due only events that were due before, other than the popped one |
| Simulations.DueRequeue | Server/Core/Simulation.cs:62-67 | putting an event back with a tick past the captured time makes no event due that was not due before |
| Simulations.ZeroDelayQueuedAndPooled | Server/Core/Simulation.cs:110-126 | an event that requeues itself with zero delay ends up both in the queue and in its pool |
| Sessions.LiveUser | Server/LuciferCore/Manager/SessionManager.cs:55 | a session is live exactly when it exists and now is at or before its expiry, and the user is the stored one |
| Sessions.SessionManager.constructor | Server/LuciferCore/Manager/SessionManager.cs:20 | the registry starts empty |
| Sessions.SessionManager.Store | Server/LuciferCore/Manager/SessionManager.cs:64-75 | upserts the session with expiry now + ttl (default ttl when none is given); ArgumentOutOfRangeException and no change when that expiry is outside the DateTime range; `SessionManager.Count` (NumberSession, SessionManager.cs:25) grows by one exactly for a new id |
| Sessions.SessionManager.GetUserId | Server/LuciferCore/Manager/SessionManager.cs:82-97 | returns the live session's user; a missing or expired session yields none and an expired one is evicted |
| Sessions.SessionManager.IsUser | Server/LuciferCore/Manager/SessionManager.cs:104-119 | true exactly for a live session; a dead one is evicted |
| Sessions.SessionManager.Authorization | Server/LuciferCore/Manager/SessionManager.cs:128-146 | succeeds exactly when the request's token parses and names a live session, yielding its user; a parsed token for a dead session is evicted and the response's token header is cleared |
| Sessions.SessionManager.RemoveCurrentSession | Server/LuciferCore/Manager/SessionManager.cs:154-168 | removes the request token's session, clears the token header, and reports false for an unparsable token; a missing response throws after the removal |
| Sessions.SessionManager.RemoveSession | Server/LuciferCore/Manager/SessionManager.cs:183-189 | removes exactly that session id |
| Sessions.SessionManager.RemoveAllSessionOfUser | Server/LuciferCore/Manager/SessionManager.cs:195-209 | keeps exactly the sessions of other users |
| Sessions.SessionManager.RemoveAllSessionsExcept | Server/LuciferCore/Manager/SessionManager.cs:216-230 | keeps exactly the other users' sessions and the one kept id |
| Sessions.SessionManager.Clear | Server/LuciferCore/Manager/SessionManager.cs:235-238 | the registry becomes empty |
| Sessions.SessionManager.CleanExpiredSessions | Server/LuciferCore/Manager/SessionManager.cs:243-255 | keeps exactly the sessions whose expiry is after now |
| Sessions.LiveYetSwept | Server/LuciferCore/Manager/SessionManager.cs:55 | a session expiring exactly now is live for lookups yet removed by the sweep |
| Managers.ManagerBase.Start | Server/LuciferCore/Manager/ManagerBase.cs:14-23 | a running task is left alone; otherwise a fresh token is made after a cancelled one, the loop is launched and OnStart is traced after it |
| Managers.ManagerBase.Stop | Server/LuciferCore/Manager/ManagerBase.cs:28-42 | cancels, traces OnStopping, waits for the task, and traces OnStopped unless the wait threw something other than a cancellation |
| Managers.ManagerBase.Restart | Server/LuciferCore/Manager/ManagerBase.cs:47-51 | Stop then Start: unless the wait threw, the trace is cancel, stopping, stopped, launch, started on a new token |
| Managers.StopTwice | Server/LuciferCore/Manager/ManagerBase.cs:28-42 | stopping twice runs the stop hooks twice |
| DatabaseManagers.DatabaseManager.constructor | Server/LuciferCore/Manager/DatabaseManager.cs:20-22 | every queue and the flush log start empty |
| DatabaseManagers.DatabaseManager.Enqueue | Server/LuciferCore/Manager/DatabaseManager.cs:37 | appends the job to the main queue and to the jobs held |
| DatabaseManagers.DatabaseManager.FlushQueue | Server/LuciferCore/Manager/DatabaseManager.cs:99-127 | writes the whole sub-queue of that kind as one flush and empties it |
| DatabaseManagers.DatabaseManager.Route | Server/LuciferCore/Manager/DatabaseManager.cs:52-66 | moves the head job of the main queue onto the sub-queue of its kind |
| DatabaseManagers.DatabaseManager.FlushIfFull | Server/LuciferCore/Manager/DatabaseManager.cs:69-71 | flushes the sub-queue when it holds at least the batch size, leaving it below the batch size |
| DatabaseManagers.DatabaseManager.FlushIfAny | Server/LuciferCore/Manager/DatabaseManager.cs:76-78 | flushes a non-empty sub-queue, leaving it empty |
| DatabaseManagers.DatabaseManager.FlushFull | Server/LuciferCore/Manager/DatabaseManager.cs:69-71 | flushes each full sub-queue in the order insert, update, delete |
| DatabaseManagers.DatabaseManager.FlushLeftovers | Server/LuciferCore/Manager/DatabaseManager.cs:94-96 | the final drain empties all three sub-queues in the order insert, update, delete |
| DatabaseManagers.DatabaseManager.Iteration | Server/LuciferCore/Manager/DatabaseManager.cs:49-80 | one pass: route one job, flush full queues, and after the flush interval flush everything and reset the timer; no sub-queue is left at the batch size |
| DatabaseManagers.DatabaseManager.Passes | Server/LuciferCore/Manager/DatabaseManager.cs:47-91 | the loop takes one job per pass from the main queue, keeps every job held, and only appends to the flush log |
| DatabaseManagers.DatabaseManager.Run | Server/LuciferCore/Manager/DatabaseManager.cs:43-97 | after the final drain every job ever enqueued is either still in the main queue or in exactly one flush |
| DatabaseManagers.TallyDrained | Server/LuciferCore/Manager/DatabaseManager.cs:93-96 | with empty sub-queues the jobs held are the main queue plus the flushed jobs |
| Tokens.ExpirySeconds | Server/LuciferCore/Helper/TokenHelper.cs:17-22 | the expiry is the whole Unix second containing now + minutes |
| Tokens.CreateToken | Server/LuciferCore/Helper/TokenHelper.cs:17-22 | the token is padded Base64 of the UTF-8 bytes of `sessionId:expiry` |
| Tokens.TryParseToken | Server/LuciferCore/Helper/TokenHelper.cs:32-51 | succeeds only on valid strict Base64, and a parsed session id has no colon |
| Tokens.TokenRoundTrip | Server/LuciferCore/Helper/TokenHelper.cs:17-51 | parsing a created token gives back its session id, and it is valid exactly while now is at or before the expiry second |
| Tokens.PayloadParses | Server/LuciferCore/Helper/TokenHelper.cs:37-45 | the payload `sessionId:expiry` parses back to the session id, valid until the expiry |
| Tokens.FreshTokenAccepted | Server/LuciferCore/Helper/TokenHelper.cs:17-51 | a token of at least one minute is accepted when it is created |
| Tokens.ColonSessionNeverParses | Server/LuciferCore/Helper/TokenHelper.cs:38-39 | a session id containing a colon never survives the round trip |
| Tokens.LateFailureKeepsSessionId | Server/LuciferCore/Helper/TokenHelper.cs:41-42 | a non-numeric expiry fails but still reports the session id |
| Tokens.EmptyTokenRefused | Server/LuciferCore/Helper/TokenHelper.cs:32-50 | an empty token is refused with an empty session id |
| Tokens.GetToken | Server/LuciferCore/Helper/TokenHelper.cs:80-89 | returns the value of the first header named like the token header, ignoring case |
| Tokens.ParseRequestToken | Server/LuciferCore/Helper/TokenHelper.cs:80-89 | reading and parsing the request's token agree with the pure definition |
| Tokens.SetToken | Server/LuciferCore/Helper/TokenHelper.cs:59-62 | appends exactly the token header holding a fresh token |
| Tokens.RemoveToken | Server/LuciferCore/Helper/TokenHelper.cs:68-71 | appends exactly an empty token header |
| Base64.DecodeStrictEncode | Server/LuciferCore/Helper/TokenHelper.cs:17-51 | strict Base64 decoding inverts encoding (section 4 of RFC 4648) |
| Base64.StrictImpliesForgiving | Server/extra_files/FE/User/js/model.js:80-88 | whatever the server's strict decoder accepts, the client's forgiving decoder decodes the same way |
| Utf8.DecodeEncode | Server/LuciferCore/Helper/TokenHelper.cs:17-51 | decoding the UTF-8 encoding of a string gives the string back |
| Text.ParseIntToString | Server/LuciferCore/Helper/TokenHelper.cs:42 | parsing the decimal text of a 64-bit integer gives it back |
| Text.ParseInt64Padded | Server/LuciferCore/Helper/TokenHelper.cs:42 | `long.Parse` with integer style accepts U+0009–U+000D or U+0020 around an optional sign and decimal digits, then trailing NULs, and gives the signed value exactly when it fits in 64 bits |
| Text.ParseInt64RefusesOther | Server/LuciferCore/Helper/TokenHelper.cs:42 | a text whose first character is not allowed white space, a sign or a digit is refused |
| Tokens.UnicodeSpaceExpiryRefused | Server/LuciferCore/Helper/TokenHelper.cs:41-42 | white space that `long.Parse` does not allow, such as a no-break space, in front of the expiry fails the token while still reporting the session id |
| Tokens.SpacedTokenParses | Server/LuciferCore/Helper/TokenHelper.cs:37 | space, tab, CR or LF inserted anywhere into a token does not change how it parses |
| Base64.SpaceSkipped | Server/LuciferCore/Helper/TokenHelper.cs:37 | `Convert.FromBase64String` ignores space, tab, CR and LF anywhere in its input |
| Base64.StripPadding | Server/LuciferCore/Helper/TokenHelper.cs:37 | removing padding takes off exactly the '=' characters that encoding adds |
| Decoding.GetBasePath | Server/LuciferCore/Helper/DecodeHelper.cs:28-35 | the result is the prefix of the URL before its first `?`, the whole URL when there is none |
| Decoding.LastWins | Server/LuciferCore/Helper/DecodeHelper.cs:42-58 | when a key repeats, the dictionary keeps its last value |
| Decoding.KeyPresent | Server/LuciferCore/Helper/DecodeHelper.cs:42-58 | a key is in the dictionary exactly when some pair carries it |
| Decoding.EntryAt | Server/LuciferCore/Helper/DecodeHelper.cs:52-54 | a pair splits at its first `=` into unescaped key and value; a pair with no `=` gets an empty value |
| Decoding.ParseQueryParams | Server/LuciferCore/Helper/DecodeHelper.cs:42-58 | the loop builds the dictionary of the query pairs; a path with no `?` yields none |
| Decoding.GetParamWithURL | Server/LuciferCore/Helper/DecodeHelper.cs:66-69 | returns the key's value exactly when the query has the key |
| Decoding.GetHeader | Server/LuciferCore/Helper/DecodeHelper.cs:12-21 | returns the value of the first header whose name matches, ignoring case |
| Decoding.GetUserIdFromRequest | Server/LuciferCore/Helper/DecodeHelper.cs:71-82 | an explicit userId in the query wins; otherwise the user of the request token's live session; nothing when the token does not parse; a token whose session is dead evicts that session |
| Http.Lookup | Server/LuciferCore/Helper/DecodeHelper.cs:12-21 | the scan returns the first matching entry's value, and returns one exactly when some entry matches |
| Http.FirstMatchAt | Server/LuciferCore/Helper/DecodeHelper.cs:12-21 | the first matching position is the one before which nothing matches |
| Cookies.SessionCookieFor | Server/LuciferCore/Helper/CookieHelper.cs:16-19 | the session cookie carries the id, path `/`, secure, strict and http-only, with max-age minutes * 60 wrapped to 32 bits |
| Cookies.Wrap32 | Server/LuciferCore/Helper/CookieHelper.cs:18 | a 32-bit signed product wraps modulo 2^32 and is unchanged when it fits |
| Cookies.SetSession | Server/LuciferCore/Helper/CookieHelper.cs:16-19 | appends exactly the session cookie |
| Cookies.RemoveSession | Server/LuciferCore/Helper/CookieHelper.cs:25-28 | appends an empty session cookie with max-age zero |
| Cookies.GetSession | Server/LuciferCore/Helper/CookieHelper.cs:35-47 | returns the first session cookie's value, and returns one exactly when the request has that cookie |
| Multipart.IndexFrom | Server/LuciferCore/Helper/MultipartHelper.cs:9-29 | the first occurrence of the needle at or after start, or -1 when there is none |
| Multipart.IndexOf | Server/LuciferCore/Helper/MultipartHelper.cs:9-29 | the nested loops compute the first occurrence |
| Multipart.ReadLine | Server/LuciferCore/Helper/MultipartHelper.cs:95-108 | only a Content-Type line without a colon throws; a line that is not Content-Disposition keeps the file name |
| Multipart.ReadPartHeaders | Server/LuciferCore/Helper/MultipartHelper.cs:95-109 | the loop over header lines agrees with the pure reading |
| Multipart.FileNameAlsoMatchesName | Server/LuciferCore/Helper/MultipartHelper.cs:99-103 | every `filename="` also matches the `name="` pattern four characters later |
| Multipart.Delimiter | Server/LuciferCore/Helper/MultipartHelper.cs:46-56 | a delimiter exists only for a multipart/form-data content type, and it begins with two dashes |
| Multipart.CleanContent | Server/LuciferCore/Helper/MultipartHelper.cs:126-133 | the content cut at the next delimiter, less one CRLF right before it, lies in the body with no delimiter starting inside it or before the CRLF |
| Multipart.PartDataUnique | Server/LuciferCore/Helper/MultipartHelper.cs:121-133 | where the content starts fixes the content: two contents that both end at the next delimiter are equal |
| Multipart.PartWithFile | Server/LuciferCore/Helper/MultipartHelper.cs:111-141 | a file the rest of a pass yields has exactly the header values read, a non-empty filename, and the content described above |
| Multipart.FitsPartWith | Server/LuciferCore/Helper/MultipartHelper.cs:111-144 | conversely, a file that fits the headers read and the content rule is exactly the file the rest of the pass yields, with the cursor left on the next delimiter |
| Multipart.FinishPart | Server/LuciferCore/Helper/MultipartHelper.cs:111-145 | the next-delimiter search and the content copy compute the rest of a pass |
| Multipart.PartAt | Server/LuciferCore/Helper/MultipartHelper.cs:82-145 | a pass throws only IndexOutOfRangeException; it leaves the cursor at -1 (stop) or on a later occurrence of the delimiter, and a file always comes with a next delimiter |
| Multipart.PartAtFile | Server/LuciferCore/Helper/MultipartHelper.cs:82-141 | a file a pass yields is the file of the part at the cursor: header block up to the first CRLFCRLF, its headers, a non-empty filename and the content up to the next delimiter |
| Multipart.PartFileFound | Server/LuciferCore/Helper/MultipartHelper.cs:82-141 | conversely, whenever the part at the cursor describes a file, the pass yields exactly that file |
| Multipart.ReadPart | Server/LuciferCore/Helper/MultipartHelper.cs:82-145 | the loop body, with its byte searches, computes one pass |
| Multipart.PartsFrom | Server/LuciferCore/Helper/MultipartHelper.cs:69-146 | the part loop throws only IndexOutOfRangeException and yields at most one file |
| Multipart.PartsFromFile | Server/LuciferCore/Helper/MultipartHelper.cs:69-146 | a file the loop yields is the file of the part at the cursor, which lies inside the body and, after the optional CRLF, is not the end marker |
| Multipart.PartsFromFound | Server/LuciferCore/Helper/MultipartHelper.cs:69-146 | conversely, when the part at such a cursor describes a file, the loop yields exactly that one file |
| Multipart.ReadParts | Server/LuciferCore/Helper/MultipartHelper.cs:69-146 | the while loop computes the part loop; it examines one part only, because the cursor then lands on the next delimiter's leading dashes |
| Multipart.FilesAfter | Server/LuciferCore/Helper/MultipartHelper.cs:63-69 | the files read after the delimiter are at most one, and the only error is IndexOutOfRangeException |
| Multipart.FilesAfterFile | Server/LuciferCore/Helper/MultipartHelper.cs:63-69 | a file returned is the one file of the part loop started right after the first delimiter |
| Multipart.FirstFileFound | Server/LuciferCore/Helper/MultipartHelper.cs:63-146 | conversely, when the part right after the first delimiter describes a file, exactly that file is returned |
| Multipart.ReadBody | Server/LuciferCore/Helper/MultipartHelper.cs:56-147 | the first-delimiter search and the part loop compute the files read after the delimiter |
| Multipart.ParseFiles | Server/LuciferCore/Helper/MultipartHelper.cs:43-148 | no multipart/form-data content type or no boundary gives no files; otherwise the result is the files read after the delimiter "--" + boundary |
| ImageFiles.ExtensionFrom | Server/LuciferCore/Helper/ImageFileHelper.cs:15 | the extension is a dot plus the path's tail after its last dot, empty when a separator comes first |
| ImageFiles.InferredExtension | Server/LuciferCore/Helper/ImageFileHelper.cs:16-25 | a missing extension is inferred from the content type, `.dat` when unknown |
| ImageFiles.IsValidImage | Server/LuciferCore/Helper/ImageFileHelper.cs:37-53 | accepts only allowed extensions whose first bytes carry the matching JPEG, PNG or GIF signature |
| ImageFiles.Validate | Server/LuciferCore/Helper/ImageFileHelper.cs:7-35 | valid exactly when a file is given, its type is an image and its bytes match its extension; each failure has its own error (NoFile, NotAnImage, BadFormat, BadData) |
| ImageFiles.DatRefused | Server/LuciferCore/Helper/ImageFileHelper.cs:15-28 | an image of unknown subtype with no extension is refused as a bad format |
| ImageFiles.SignaturesExclusive | Server/LuciferCore/Helper/ImageFileHelper.cs:37-53 | the same bytes cannot pass as two different formats |
| ImageFiles.NoSubtypeCrossCheck | Server/LuciferCore/Helper/ImageFileHelper.cs:7-35 | a GIF named `.gif` is accepted even when declared image/png |
| DataMappers.NormalizeKey | Server/LuciferCore/Database/DataMapper.cs:13-14 | keys get a leading `@` unless they already have one |
| DataMappers.NormalizeKeyIdempotent | Server/LuciferCore/Database/DataMapper.cs:13-14 | normalising twice is normalising once |
| DataMappers.KeysCollide | Server/LuciferCore/Database/DataMapper.cs:13-14 | two different keys normalise alike exactly when one is the other with `@` prefixed |
| DataMappers.NormalizeValue | Server/LuciferCore/Database/DataMapper.cs:19-20 | null becomes DBNull and every other value is kept |
| DataMappers.ToDictionaryMeaning | Server/LuciferCore/Database/DataMapper.cs:68-74 | the dictionary conversion succeeds exactly when normalised keys are distinct, mapping each to its normalised value |
| DataMappers.PropertyMapMeaning | Server/LuciferCore/Database/DataMapper.cs:29-53 | the object branch maps every normalised key, the last assignment of a key winning |
| DataMappers.DictionaryMatchesProperties | Server/LuciferCore/Database/DataMapper.cs:29-74 | with distinct keys the dictionary and object branches agree |
| DataMappers.FromProperties | Server/LuciferCore/Database/DataMapper.cs:42-50 | the loop over properties builds the property map |
| DataMappers.ToParameterDictionary | Server/LuciferCore/Database/DataMapper.cs:29-53 | dictionaries are converted (and can throw on a key collision), a data table becomes the single table parameter, and objects use their properties |
| DataMappers.ToParameterDictionaryOld | Server/LuciferCore/Databasse/DataMapper.cs:15-32 | the older copy has no data-table branch and treats every non-dictionary as an object |
| DataMappers.CopiesDifferOnTables | Server/LuciferCore/Databasse/DataMapper.cs:15-32 | the older copy never produces the table parameter for an object without such a property |
| DataMappers.AtAndBareCollide | Server/LuciferCore/Database/DataMapper.cs:68-74 | `key` and `@key` together make the conversion throw |
| DataMappers.GetScalarString | Server/LuciferCore/Database/DataMapper.cs:161-174 | null and DBNull give the default; a string is itself, and a DataTable reads as its TableName (followed by " + " and its DisplayExpression when set) |
| DataMappers.UnnamedTableIsEmpty | Server/LuciferCore/Database/DataMapper.cs:166-167 | an unnamed table without a display expression reads as the empty string |
| DataMappers.ScalarStringOfInt | Server/LuciferCore/Database/DataMapper.cs:161-174 | an integer's text parses back to the integer |
| DataMappers.GetScalarValue | Server/LuciferCore/Databasse/DataMapper.cs:95-108 | null, DBNull or a failed conversion gives the default; otherwise the converted value |
| DataMappers.ConvertAll | Server/LuciferCore/Database/DataMapper.cs:146-155 | every cell is converted in order, or the first failure throws an invalid cast |
| DataMappers.PrimitiveListMeaning | Server/LuciferCore/Database/DataMapper.cs:146-155 | the list is the first column converted, and a row without a first cell throws |
| DataMappers.MapPrimitiveList | Server/LuciferCore/Database/DataMapper.cs:146-155 | the loop over rows agrees with the first-column conversion |
| Routing.NormalizePath | Server/LuciferCore/Attributes/RouteAttribute.cs:9-13 | the path gets a leading `/` unless it has one |
| Routing.MakeRoute | Server/LuciferCore/Attributes/RouteAttribute.cs:9-13 | the verb is upper-cased and the path normalised |
| Routing.MakeRouteIdempotent | Server/LuciferCore/Attributes/RouteAttribute.cs:9-13 | normalising an already normalised route changes nothing |
| Routing.EmptyPathIsRoot | Server/LuciferCore/Attributes/RouteAttribute.cs:9-13 | the empty path becomes `/` |
| Routing.RegisteredVerbs | Server/LuciferCore/Handler/HandlerBase.cs:56-86 | the tables have exactly the seven verbs |
| Routing.RegisteredKey | Server/LuciferCore/Handler/HandlerBase.cs:56-86 | a key is in a verb's table exactly when some route of that verb declares it |
| Routing.RegisteredLast | Server/LuciferCore/Handler/HandlerBase.cs:56-86 | for a repeated route the last declaration wins |
| Routing.RegisteredLower | Server/LuciferCore/Handler/HandlerBase.cs:56-86 | every registered key is lower-case |
| Routing.BuildRoutes | Server/LuciferCore/Handler/HandlerBase.cs:56-86 | the nested loops build the declared tables |
| Routing.HandlerBase.Handle | Server/LuciferCore/Handler/HandlerBase.cs:100-124 | invokes an action exactly when the verb's table has the lower-cased base path, and then the last declaration's action; otherwise a 400 |
| Routing.DispatchedIsHandled | Server/LuciferCore/Handler/HandlerBase.cs:93-124 | any URL the handler invokes an action for is one `HandlerBase.CanHandle` (HandlerBase.cs:93, a case-insensitive prefix test on Type) accepts |
| Routing.BareTypeMissesRoot | Server/LuciferCore/Handler/HandlerBase.cs:56-86 | a root route registers as `type/`, so the bare type URL never matches it |
| Routing.ErrorHandle | Server/LuciferCore/Handler/HandlerBase.cs:202-208 | the default status is 400 |
| Routing.OkHandle | Server/LuciferCore/Handler/HandlerBase.cs:215-221 | the default status is 200 |
| Routing.Reply | Server/LuciferCore/Handler/HandlerBase.cs:202-221 | no data gives no body and text is wrapped in a message object |
| Routing.ErrorIsOkWith400 | Server/LuciferCore/Handler/HandlerBase.cs:202-221 | an error reply is an ok reply with status 400 |
| Dispatchers.FirstPrefixHandler | Server/LuciferCore/Event/EventDispatcher.cs:78-98 | the first handler type that prefixes the URL, ignoring case |
| Dispatchers.EventDispatcher.constructor | Server/LuciferCore/Event/EventDispatcher.cs:58-73 | every handler type is routed by its lower-case name, the first type of a name winning |
| Dispatchers.EventDispatcher.AddAPI | Server/LuciferCore/Event/EventDispatcher.cs:32-40 | routes the lower-cased URL (the type when blank) to the handler, and `EventDispatcher.CanAccess` (EventDispatcher.cs:47-52) then grants exactly the roles at or above the given one |
| Dispatchers.EventDispatcher.RemoveAPI | Server/LuciferCore/Event/EventDispatcher.cs:45 | removes the lower-cased URL; `EventDispatcher.CanAccess` then refuses every role for it |
| Dispatchers.EventDispatcher.Initialize | Server/LuciferCore/Event/EventDispatcher.cs:58-73 | adds routes for types not yet routed and keeps existing ones |
| Dispatchers.EventDispatcher.ResolveHandler | Server/LuciferCore/Event/EventDispatcher.cs:78-98 | an exact route wins; otherwise the first prefixing type is used and cached |
| Dispatchers.EventDispatcher.Handle | Server/LuciferCore/Event/EventDispatcher.cs:103-119 | schedules exactly one event, 250 ms ahead, for the resolved handler and nothing when none resolves; a handler found by prefix is cached under its lower-cased Type with role User, and the route map is otherwise unchanged |
| Dispatchers.HandleIgnoresMinRole | Server/LuciferCore/Event/EventDispatcher.cs:47-52 | a request the role check refuses is still scheduled by Handle |
| Dispatchers.APIHandler.AddAPI | Server/LuciferCore/Handler/APIHandler.cs:27-31 | routes the exact URL to the handler with its minimum role, and `APIHandler.CanAccess` (APIHandler.cs:33-40) then grants exactly the roles at or above it |
| Dispatchers.APIHandler.RemoveAPI | Server/LuciferCore/Handler/APIHandler.cs:45 | removes the exact URL; `APIHandler.CanAccess` then refuses every role for it |
| Dispatchers.APIHandler.Handle | Server/LuciferCore/Handler/APIHandler.cs:50-65 | schedules the exact URL's handler; any other URL is ignored |
| Dispatchers.ExactKeysOnly | Server/LuciferCore/Handler/APIHandler.cs:50-65 | a URL with a query or in another case finds no handler |
| Caches.CommonCache.constructor | Server/LuciferCore/Cache/CommonCache.cs:45 | the cache starts empty |
| Caches.CommonCache.GetCacheValue | Server/LuciferCore/Cache/CommonCache.cs:30-33 | found exactly when the key is present, with its value |
| Caches.CommonCache.PutCacheValue | Server/LuciferCore/Cache/CommonCache.cs:35-38 | upserts the key |
| Caches.CommonCache.DeleteCacheValue | Server/LuciferCore/Cache/CommonCache.cs:40-43 | removes the key and reports its former value |
| Caches.PutGetDelete | Server/LuciferCore/Cache/CommonCache.cs:30-43 | a put value is read back and deleted, after which the key is gone |
| Caches.CacheHolder.GetInstance | Server/LuciferCore/Cache/CommonCache.cs:8-13 | the first call creates an empty cache and later calls return that same cache |
| Caches.SameInstance | Server/LuciferCore/Cache/CommonCache.cs:8-13 | a value put through one instance is seen through the next |
| Caches.CommonCache.GetAllCache | Server/LuciferCore/Cache/CommonCache.cs:15-28 | the dump is the brackets around each entry's block passed through format parsing, or a FormatException |
| Caches.Unformat | Server/LuciferCore/Cache/CommonCache.cs:22-23 | format parsing never lengthens text and throws only FormatException |
| Caches.UnformatEscaped | Server/LuciferCore/Cache/CommonCache.cs:22-23 | doubled braces parse back to the original text |
| Caches.LoneBraceThrows | Server/LuciferCore/Cache/CommonCache.cs:22-23 | a key `{` makes the dump throw |
| Caches.GetAllCacheVerbatim | Server/LuciferCore/Cache/CommonCache.cs:15-28 | the corrected dump lists each entry's block verbatim |
| Caches.EveryEntryListed | Server/LuciferCore/Cache/CommonCache.cs:19-25 | each entry's block appears in the dump in enumeration order |
| Caches.FormattedIsVerbatim | Server/LuciferCore/Cache/CommonCache.cs:15-28 | without braces the as-written dump equals the verbatim one |
| ClientModel.Pushed | Server/extra_files/FE/User/js/model.js:123-128 | push makes the page current and pushes the old current page on top of the stack when there was one |
| ClientModel.Popped | Server/extra_files/FE/User/js/model.js:130-136 | back returns and removes the stack top, which becomes current; an empty stack returns nothing and changes nothing |
| ClientModel.PushThenBack | Server/extra_files/FE/User/js/model.js:123-136 | back right after push restores the history and returns the page that was current |
| ClientModel.PushAllStack | Server/extra_files/FE/User/js/model.js:123-128 | after a run of pushes the stack holds every earlier page in order |
| ClientModel.Pages.Push | Server/extra_files/FE/User/js/model.js:123-128 | updates the stack and current page as push is defined |
| ClientModel.Pages.Back | Server/extra_files/FE/User/js/model.js:130-136 | updates the stack and current page as back is defined |
| ClientModel.Pages.GetStack | Server/extra_files/FE/User/js/model.js:137-139 | returns the stack |
| ClientModel.Pages.GetCurrent | Server/extra_files/FE/User/js/model.js:140-142 | returns the current page itself, null when there is none |
| ClientModel.ParseIntJsToString | Server/extra_files/FE/User/js/model.js:80-88 | parseInt reads back any integer's decimal text |
| ClientModel.IsAuthTokenValid | Server/extra_files/FE/User/js/model.js:80-88 | a token that does not decode is invalid; a valid one carries an expiry after now |
| ClientModel.ClientAcceptsToken | Server/extra_files/FE/User/js/model.js:80-88 | the client accepts a server token exactly while now is strictly before its expiry |
| ClientModel.ClientStricterThanServer | Server/extra_files/FE/User/js/model.js:80-88 | every token the client accepts the server accepts; at the exact expiry millisecond the server accepts and the client refuses |
| ClientModel.ExtraFieldsIgnored | Server/extra_files/FE/User/js/model.js:80-88 | the client ignores extra fields that make the server refuse |
| ClientModel.NoSeparatorRefused | Server/extra_files/FE/User/js/model.js:80-88 | a payload without a colon is refused |
| ClientModel.NonNumericExpiryRefused | Server/extra_files/FE/User/js/model.js:80-88 | a non-numeric expiry is refused |
| ApiQuery.EncodeComponent | Server/extra_files/FE/User/js/api.js:44-48 | encoded text holds only unreserved characters and percent escapes |
| ApiQuery.EncodeUnreserved | Server/extra_files/FE/User/js/api.js:44-48 | unreserved text is left as it is |
| ApiQuery.DecodeEncodeComponent | Server/extra_files/FE/User/js/api.js:44-48 | decoding inverts the component encoding |
| ApiQuery.StrayEscapeRefused | Server/extra_files/FE/User/js/api.js:44-48 | the decoder used as the encoding's inverse is strict: an escaped byte that starts no UTF-8 sequence, such as %FF, is refused |
| ApiQuery.BuildQuery | Server/extra_files/FE/User/js/api.js:44-48 | the query is empty exactly when there are no entries |
| ApiQuery.QueryRoundTrip | Server/extra_files/FE/User/js/api.js:44-48 | parsing the query gives back every entry, in order, with its value stringified |
| ApiQuery.BuildPathWithQuery | Server/extra_files/FE/User/js/api.js:50-54 | the path starts with `/` |
| ApiQuery.PathWithQuery | Server/extra_files/FE/User/js/api.js:50-54 | the normalised path followed by the query |
| ApiQuery.GetUserQuery | Server/extra_files/FE/User/js/api.js:137-149 | no query exactly when neither id nor name is truthy |
| ApiQuery.GetUserReadsBack | Server/extra_files/FE/User/js/api.js:137-149 | whenever either argument is truthy, the query reads back as both parameters, userId then username, each as the text of its value, so a missing one is sent too |
| ApiQuery.GetUserById | Server/extra_files/FE/User/js/api.js:137-149 | a lookup by id also sends `username=null` |
| Pagination.UpdatePaginationUI | Server/extra_files/www/User/js/view.js:676-720 | the loop appends Prev, the window's numbered buttons and Next as the button list defines |
| Pagination.AppendPages | Server/extra_files/www/User/js/view.js:701-710 | the loop appends one numbered button per window number, in order, marking only the current page active |
| Pagination.AtMostThree | Server/extra_files/www/User/js/view.js:682-710 | at most three numbered buttons, for consecutive numbers |
| Pagination.CurrentShown | Server/extra_files/www/User/js/view.js:682-710 | with a whole page count the shown pages are whole and within range, and the current page is the only active one |
| Pagination.MiddleWindow | Server/extra_files/www/User/js/view.js:682-689 | away from the ends the window is the current page and its neighbours |
| Pagination.ShiftedAtEnd | Server/extra_files/www/User/js/view.js:682-689 | near the end the window shifts to finish at the last page |
| Pagination.PrevButton | Server/extra_files/www/User/js/view.js:692-697 | a Prev button comes first exactly when the current page is past the first |
| Pagination.NextButton | Server/extra_files/www/User/js/view.js:713-718 | a Next button comes last exactly when the current page is before the count |
| Pagination.NoPagesBelowOne | Server/extra_files/www/User/js/view.js:682-710 | a count below one shows no numbered button |
| Games.JsSlice | Server/extra_files/FE/User/js/controller.js:340-350 | for non-negative bounds the slice is clipped to the list |
| Games.InsertMeaning | Server/extra_files/FE/User/js/controller.js:320-338 | inserting into a descending list keeps it descending and adds exactly the one game |
| Games.SortMeaning | Server/extra_files/FE/User/js/controller.js:320-338 | the sorted copy is a descending permutation |
| Games.PopularIsTopTen | Server/extra_files/FE/User/js/controller.js:320-328 | `GetGamePopular` gives min(10, n) games in descending order of reviews, taken from the data, and no game left out has more reviews than one kept |
| Games.BestIsTopTen | Server/extra_files/FE/User/js/controller.js:330-338 | `GetGameBest` gives min(10, n) games in descending order of average rating, taken from the data, and no game left out rates higher than one kept |
| Games.TopTenMeaning | Server/extra_files/FE/User/js/controller.js:320-338 | a top-ten list has min(10, n) games, descending, drawn from the data, and no game left out outranks one kept |
| Games.PageBounds | Server/extra_files/FE/User/js/controller.js:340-350 | `GetGamePagination` gives page p as the clipped slice from (p-1)*limit to p*limit, never longer than the limit |
| Games.PagesInOrder | Server/extra_files/FE/User/js/controller.js:340-350 | the first k pages together are the first k*limit games |
| Games.GameData | Server/extra_files/FE/User/js/controller.js:645-660 | stored data of at least ten games is used, otherwise the fetched data |
| Games.LoadGamesMeaning | Server/extra_files/FE/User/js/controller.js:645-673 | `LoadGamesContent` succeeds exactly when data exists and the page is non-empty, and then shows that page |
| Games.PageCount | Server/extra_files/FE/User/js/controller.js:540-542 | the count rounded up covers every game |
| Games.FractionalCountHidesLastPage | Server/extra_files/FE/User/js/controller.js:540-542 | with 25 games the pager of `LoadHomeContent` as written (controller.js:518-543) shows pages 1 and 2 only, and on page 3 no page is active |
| Games.CeilCountShowsEveryPage | Server/extra_files/FE/User/js/controller.js:540-542 | with the count rounded up the current page is shown, active, and every shown page is within range |
| PageEvents.ClientState.constructor | Server/extra_files/FE/User/js/model.js:8-14 | the page starts at 1 and the rating at 0 |
| PageEvents.ClientState.PagerClick | Server/extra_files/www/User/js/event.js:251-283 | a number jumps to its page, Prev and Next move when they can, and a move re-renders that page and the pager |
| PageEvents.ClickStaysInRange | Server/extra_files/www/User/js/event.js:251-283 | a click on a shown button keeps the page within range, and a number goes to exactly that page |
| PageEvents.PrevNextStayInRange | Server/extra_files/www/User/js/event.js:267-281 | Prev never goes below page 1 and Next never past the last page |
| PageEvents.ClientState.StarClick | Server/extra_files/www/User/js/event.js:289-301 | clicking the rated star clears the rating; any other star sets it |
| PageEvents.ToggleMeaning | Server/extra_files/www/User/js/event.js:289-301 | the rating stays within 0..10, is 0 exactly after re-clicking, and a second click on the same star undoes the first when the rating was 0 or was that star (from any other rating two clicks leave 0) |
| PageEvents.ClientState.LoadMore | Server/extra_files/www/User/js/event.js:412-425 | moves to the next page of six, shows it, and disables the button when it is empty |
| PageEvents.FirstLoadMoreSkipsFirstSix | Server/extra_files/www/User/js/event.js:412-425 | the first click shows games seven to twelve |
| PageEvents.LoadMoreContiguous | Server/extra_files/www/User/js/event.js:412-425 | successive clicks show consecutive slices with nothing skipped |

## Left out

- Locks, `Task.Run`, semaphores, the 10 ms simulation pump and cancellation timing are left out: every operation runs as one sequential step.
- Logging, the SMTP notifier, the file cache, the database driver and all stored-procedure glue are left out. A flush records its batch instead of writing it.
- Reflection is left out:
  - Routes and handler types are explicit lists.
  - The object-to-properties branch of both data mappers takes the property list as input.
  - JSON serialisation of replies is reduced to the body value.
- The DOM, `fetch`, `localStorage` and the render calls are left out. Each handler returns what it would hand to the view.
- Simulations.Simulation.Tick: takes a step bound, because the source loop never ends when an event keeps requeuing itself at or before the captured time; with every requeue delay at least 1 and a bound above the number of events due, the bound is proved never reached.
- HeapQueues.HeapQueue.Pop: returns none on an empty heap where the source throws.
- HeapQueues.HeapQueue.Peek: returns none on an empty heap where the source throws.
- Event bodies are abstracted into a precondition result and an optional self-reschedule delay.
- Time is modelled as integer milliseconds rather than float seconds.
- Utf8.Decode: replaces each invalid byte on its own; .NET's grouping of an invalid sequence into one replacement character is not modelled.
- Case-insensitive comparisons use the ASCII case mapping only.
- ClientModel.ClientAcceptsToken: stated for ASCII session ids only, where the client's byte-per-character decoding equals UTF-8.
- ClientModel.ClientStricterThanServer: stated for ASCII session ids only, for the same reason.
- ClientModel.ParseIntJs: returns the whole number read, with `None` for NaN. The rounding to a double, which loses precision past 2^53 and turns "-0" into negative zero, is not modelled.
- ApiQuery.ToJsString: covers strings, integers, booleans, null and undefined. Floats and objects are not modelled.
- ApiQuery.BuildQuery: keeps the entries in the given order. JavaScript's reordering of integer-like keys in `Object.entries` is not modelled.
- ApiQuery.DecodeComponent: the URIError that `decodeURIComponent` throws, on a malformed escape or on escaped bytes that are not well-formed UTF-8, is modelled as none.
- Games.SortDescending: is a stable insertion sort. Stability is not stated as a lemma.
- Games.LoadHomeContent: returns the lists and pager it renders. Its `undefined` result and its write to local storage are not modelled.
- PageEvents.ClientState.LoadMore: treats only 0 as unset in `currentPagination || 1`. NaN is not modelled.
- Floats, randomness, process statistics and the fuzzy noise source are left out.
- ImageFiles.ExtensionFrom: treats both `/` and `\` as separators, as `Path.GetExtension` does when .NET runs on Windows. On Linux and macOS only `/` separates, so there `photo.d\x` has the extension `.d\x` and not none.
- DataMappers.ConvertAll: reports every failed conversion as InvalidCastException. `Convert.ChangeType` can also throw FormatException or OverflowException, and the model does not tell these apart.
- DataMappers.MapPrimitiveList: reports a failed conversion as InvalidCastException, for the same reason as ConvertAll.

## Findings

| source | as written | input that shows it | evidently intended | confidence | as-written member | corrected member |
|---|---|---|---|---|---|---|
| Server/LuciferCore/Cache/CommonCache.cs:22-23 | the interpolated key and value are passed to `AppendFormat`, so their braces are read as format items | a cache entry whose key is `{` | each entry listed verbatim | not executed | Caches.LoneBraceThrows | Caches.GetAllCacheVerbatim |
| Server/extra_files/FE/User/js/controller.js:540-542 | the page count is `length / 10`, unrounded | 25 stored games: the pager shows pages 1 and 2 only, and on page 3 nothing is active | the count rounded up, as the pager click handler does | not executed | Games.FractionalCountHidesLastPage | Games.CeilCountShowsEveryPage |
