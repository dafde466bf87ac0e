# Verified model of the web server library

The repository is a small web server library in C. This project models six of
its parts and proves properties of the models:

* **Worker pool** (`Ring`, `Pool`, `PoolTurns`, `PoolEnd`, `PoolSync`): one
  server and any number of workers around a ring of job slots, with a mutex and
  a condition variable. `Ring` and `Pool` are the state machine, one step per
  critical section, `PoolTurns` follows single workers, `PoolEnd` says which
  runs stop it; `PoolSync` is the shared struct with the index functions as
  methods.
* **Reference resolution** (`Segments`, `DotSegments`, `PathRewrite`,
  `Resolve`, `ResolveTexts`): base directory, in-place removal of "." and "..",
  error test and recomposition of section 5.2 of RFC 2396.
* **URI parser** (`Cursor`, `UriGrammar`, `UriParser`, `UriScan`,
  `UriRoundTrip`, `UriHosts`, `UriParts`, `UriReprint`, `UriLocality`): the
  recursive-descent grammar as functions, the parser as a class with one method
  per grammar function, and the round trips between text and components.
* **Request head** (`HttpTables`, `HttpLines`, `HttpHead`, `HttpCase`,
  `RequestTarget`, `HttpRequest`, `HttpParser`): request line and header lines
  of RFC 2616, tried again on a growing buffer, and which request texts are
  accepted.
* **Connection** (`Connection`, `ConnectionClose`, `ConnectionWorker`): the
  select loop and its HTTP callbacks, driven by arbitrary results of select,
  recv and send.
* **String kernels** (`StringBuffer`, `UriEscape`, `UriChars`, `DecimalMul`):
  append and search, percent-escaping, schoolbook multiplication.

Functions say what a part computes; the methods of the classes run it as the C
code does and are proved equal to those functions; lemmas state the properties.

## Where the code and its documentation differ

The models follow the code. Where that breaks a promised law, the documented
reading stands beside it, a lemma gives a failing input, and another says for
exactly which inputs the code meets the law.

* The state tables of the ring (worker/workeraa_index_utils.h:100-115) have
  exclusive cases, but line 165 is a second `if`; the checks wrap only a local
  index. `Mode` tells the readings apart: `WrittenCodeKeepsOrderIff` and
  `WrittenCodeLosesAJob` are about the code, `JobsAreConserved` and
  `StructsAreReusedLate` about the tables. The wake-up theorem holds for both.
* Both readings of the ring refuse everything for good once both indices stand at
  the end mark. `StoppedIff` says which step of a run leads there. By the tables
  it is the end of a lap on which the ring went from full to empty
  (`FillAndDrainStopsThePool`) or from empty to full (`TabledPoolStopsFull`, where
  accepted jobs are stuck); `StoppedAtALapIff` is the exact condition in jobs
  accepted and handed out, `WrittenStoppedIff` the one for the code before its
  first wrap.
* The functions for "." and ".." segments that work on a string scan its whole
  buffer, terminator included: a final "." or ".." stays (`NulKeepsTheLast`), the
  copy of a cut reads one byte behind a string that fills its array, and the size
  recorded is one too large (`RemoveSegmentPoint`, `RemoveSegmentPoints`).
* The ".." loop lets a segment such as "..g" run into the segment before it
  (`GluedIsLost`, `ReadingsAgreeIff`).
* A path that climbs above its root loses the root: "/../a" becomes "a", while
  section 5.2 of RFC 2396 keeps the ".." (`ClimbLosesTheSlash`, `RfcFoldIff`).
  Which paths are refused instead, `RefusedIff` says.
* A final "." is blanked without shortening the path, and the recomposition
  drops the last byte of null-terminated components, although the write position
  already excludes the NUL. `ResolvedPathIff` is the exact condition under which
  the resolved path is the one of the RFC.
* The scan loops step once more after an escape, so the byte behind `%41` is
  taken unseen, and a `%` that ends the text is taken along. `RoundTripIff` is
  the exact condition for the round trip; `ParsedIsReprinted` needs none.
* For the same reason a legal request may be refused for good: behind
  "GET /%41" the space is taken along (`EscapeAtTheEndIsRefused`), and the request
  is never answered. `TargetIff` and `LineReadIff` say exactly which targets and
  request lines are accepted, `RequestIsAnswered` which requests are answered.
* A reference that is a query only is refused by the parser, which leaves the
  query set (`QueryIsRefused`); section 4 of RFC 2396 allows it.
* Of a null-terminated base path the last byte is not searched for a "/", though
  the NUL is no part of it (`TerminatedBase`).
* An escape that is cut off counts as a success when another came before it, and
  six characters behind "9" pass for hex digits (`CutOffIff`, `DigitIff`).
* The authority of CONNECT is read as a scheme and an opaque part, so
  "1.2.3.4:80" is refused (`TargetIff`, `AddressIsRefused`).
* Registry names (section 3.2.1 of RFC 2396) are cut where a hostname would end,
  since the server alternative always succeeds (`RegistryNameIsCut`), and a label
  that ends the text may end in "-" (`HyphenAtTheEnd`). `HostIsFound` says that
  every other host accepted is legal.
* An IPv4 address is not found when its last number has one digit and ends the
  text (`NumbersAt`, `LoneDigitInput`).
* The method search does not go back between table entries: PUT is never found
  at the start of a text, and letters in front of a method are accepted
  ("PODELETE", "PPUT"). `AcceptedIsGenuineIff` and `GenuineMethodIff` say exactly
  when an accepted method is genuine.
* A send result of zero bytes is reported as -3 but compared with -2, so it
  counts as sending and the loop goes on (`ZeroSendsNeverEnd`,
  `SendShutdownIsNeverSeen`).
* When the other side shuts down, the loop sets a flag and watches nothing any
  more (`ShutdownIsSleep`); a request with another method than GET is received
  until the buffer is full (`OtherMethodFillsUp`).
* Unescaping all characters writes the low hex digit where the byte is
  documented, and both buffers are one byte short (`WrittenUndoesIff`). So even
  unescaping the unreserved characters only loses the last byte of a text
  without any escape of one (`WrittenKeepsMeaningIff`, `PlainLetterIsLost`).
* An append to a string that fills its array loses the last byte
  (`AppendKeepsIff`).

## Assumptions

Text is a sequence of characters standing for bytes; `_toupper` and `_tolower`
change ASCII letters only. Allocation succeeds, and arrays newly allocated have
unspecified contents. `pthread_mutex_lock` and `pthread_cond_signal` succeed; a
wait may fail or wake without a signal. The base path of a resolution is unset,
empty, or has a "/": for any other the index of
url/uriaa_rfc2396_resolve.h:105-114 would wrap below zero. Header matching and the
request line are reached only behind the test for two line breaks, so the rest
of the buffer handed to the URI parser is never empty. The cursor helpers of
string/stringaa_math.h (`stringaa_begin_pos`, `stringaa_prev_pos` and the like)
are not part of the repository: a cursor that falls off the front stays there,
reads 0 and writes nothing, one that moves past the last digit stands behind it,
and every place of the result is a digit.

## Model

| member | source | states |
|---|---|---|
| Ring.PutKeepsOrder | worker/workeraa_index_utils.h:248-310 | by the documented tables: a store is refused exactly when the ring is full or both indices stand at the end mark, never leaves the array, and appends its job to the queue in slot (number of jobs) mod size |
| Ring.TakeKeepsOrder | worker/workeraa_index_utils.h:184-246 | by the documented tables: a take is refused exactly when the ring is empty or both indices stand at the end mark, and yields the oldest queued job |
| Ring.ContentsAreQueued | worker/workeraa_index_utils.h:16-31 | the occupied slots, walked from the read index, are the accepted jobs not yet taken, in order |
| Ring.WrittenMeetsTable | worker/workeraa_index_utils.h:142-177 | the code stores the tabled next write index exactly when the write index does not wrap (the second `if` of line 165 advances a wrapped index again) |
| Ring.WrittenPutExact | worker/workeraa_index_utils.h:258-310 | a store by the code is right exactly when the write index does not wrap |
| Ring.WrittenTakeExact | worker/workeraa_index_utils.h:194-246 | a take by the code is right exactly when the read index is not at the end mark |
| Pool.NeverAllBlocked | worker/workeraa_utils.h:102-141 | in every interleaving, spurious wake-ups and failing waits included: while some worker is blocked, queued jobs are at most the workers awake and heading for the lock, so workers are never all blocked with a job queued |
| Pool.StepKeepsWakeups | worker/workeraa_utils.h:63-96 | every critical section of server and workers keeps that bound |
| PoolTurns.EmptyRingBlocks | worker/workeraa_utils.h:110-118 | by code and tables alike: a worker that finds the ring empty is blocked, and takes no turn, in every run in which it is neither signalled nor woken spuriously |
| PoolTurns.EveryTakeIsWorked | worker/workeraa_utils.h:102-141 | in every run: jobs in the hands of workers and finished jobs together are the jobs handed out, and no two workers hold the same one |
| PoolTurns.QueuedJobIsHanded | worker/workeraa_utils.h:120-133 | by the tables, a worker that gets the mutex while a job is queued leaves it with the oldest one |
| PoolTurns.BusyUntilDone | worker/workeraa_utils.h:102-141 | a worker with a job takes no turn and is not disturbed, in every run, until it is done |
| PoolTurns.RefusedTakeSpins | worker/workeraa_utils.h:120-133 | with both indices at the end mark a worker that finds jobs goes on without a wait and without a job |
| PoolTurns.OfferIsStored | worker/workeraa_utils.h:63-96 | a post accepts its job by storing it, or changes nothing; only the signalled worker is touched |
| PoolTurns.FullRingRefuses | worker/workeraa_utils.h:63-96 | by the tables a post to a full ring is refused at once and changes nothing |
| PoolTurns.SpuriousIsWoken | worker/workeraa_utils.h:111-118 | only a blocked worker returns from a wait without a signal, and it has no job yet |
| PoolTurns.FreeAgain | worker/workeraa_utils.h:111-118 | a wait fails on an empty ring only; then, and after a job, the worker may lock again and nothing else has changed |
| Pool.JobsAreConserved | worker/workeraa_utils.h:63-141 | in every run by the documented tables: jobs handed out, followed by the jobs in the ring, are the jobs accepted, in order |
| Pool.StructsAreReusedLate | socket/socketaa_utils.h:40-65 | the struct of job k is written by no store before job k + size, and two held jobs share a struct exactly when their numbers agree modulo the size |
| Pool.WrittenStepExact | worker/workeraa_utils.h:63-141 | one step of the code keeps the jobs in order exactly when it does not store with a wrapping write index |
| Pool.WrittenCodeKeepsOrderIff | worker/workeraa_utils.h:63-141 | a run of the code keeps the jobs in order exactly when its write index never wraps, and then it accepts at most `size` jobs ever |
| Pool.WrittenCodeFirstJobs | worker/workeraa_utils.h:63-141 | the states of a two-slot run of the code up to the first wrap |
| Pool.WrittenCodeLosesAJob | worker/workeraa_index_utils.h:153-177 | with two slots and three jobs the code hands out the first job twice and the third one never |
| PoolEnd.StoppedIff | worker/workeraa_index_utils.h:194-310 | for every run, by code and tables alike: the pool has stopped for good exactly when some store or take moved one index onto the end mark while the other one stood there |
| PoolEnd.StoppedAtALapIff | worker/workeraa_index_utils.h:16-31 | in every run by the documented tables, counting jobs only: stopped exactly when a whole number of laps is handed out and the ring was drained from full to empty, or filled from empty to full, without a turn in between; the first filling does not count |
| PoolEnd.WrittenStoppedIff | worker/workeraa_index_utils.h:142-177 | a run of the code before any wrap has stopped exactly when as many jobs as there are slots were accepted and handed out |
| PoolEnd.FillAndDrainStopsThePool | worker/workeraa_index_utils.h:220-241 | for every size, by code and tables alike: `size` stores and `size` takes from the start are such a run; everything is refused behind it |
| PoolEnd.TabledPoolStopsFull | worker/workeraa_index_utils.h:220-241 | by the tables with two slots: put, take, put, take, put, put leaves the ring full and stopped; two accepted jobs are never handed out, whatever happens later |
| PoolEnd.DeadStaysDead | worker/workeraa_index_utils.h:284-305 | no later step, in any run, changes a stopped ring |
| PoolSync.Sync.constructor | worker/workeraa_utils.h:230-268 | an empty ring of the asked size, 1024 when none is asked |
| PoolSync.Sync.SetNextReadIndex | worker/workeraa_index_utils.h:32-98 | the read index becomes the tabled next one, nothing else changes |
| PoolSync.Sync.SetNextWriteIndex | worker/workeraa_index_utils.h:116-182 | the write index becomes what the two `if`s store, nothing else changes |
| PoolSync.Sync.CheckReadIndex | worker/workeraa_index_utils.h:194-246 | answers as the table says and stores no index (the wrap is local) |
| PoolSync.Sync.CheckWriteIndex | worker/workeraa_index_utils.h:258-310 | answers as the table says and stores no index (the wrap is local) |
| PoolSync.Sync.SetWork | worker/workeraa_utils.h:63-96 | refuses, leaves the array, or stores, as the ring machine in its as-written mode says; a slot that has a struct keeps it and every other slot is untouched |
| PoolSync.Sync.GetWork | worker/workeraa_utils.h:102-141 | refuses, leaves the array, or hands out the struct of the slot, as the ring machine in its as-written mode says |
| Segments.JoinSplit | url/uriaa_rfc2396_resolve.h:173-182 | a path is the join of its segments |
| Segments.SplitJoin | url/uriaa_rfc2396_resolve.h:173-182 | splitting the join of slash-free segments gives the segments back |
| Segments.JoinInjective | url/uriaa_rfc2396_resolve.h:173-182 | two lists of segments are the same text exactly when they are the same list |
| DotSegments.WithoutDotsHasNone | url/uriaa_rfc2396_resolve.h:163-197 | no "." is left among the segments in front of the last one |
| DotSegments.WithoutDotsKeepsTheRest | url/uriaa_rfc2396_resolve.h:163-197 | every other segment is kept, in order: it goes to the place that counts the kept segments in front of it |
| DotSegments.WithoutDotsAddsNothing | url/uriaa_rfc2396_resolve.h:163-197 | a segment other than "." occurs as often as before, so nothing is added |
| DotSegments.FoldSettled | url/uriaa_rfc2396_resolve.h:199-248 | the stack of segments has ".." only in a leading run |
| DotSegments.FoldOver | url/uriaa_rfc2396_resolve.h:199-248 | reducing in two parts is reducing the whole |
| DotSegments.ReadingsAgreeIff | url/uriaa_rfc2396_resolve.h:213-236 | the code's reduction, which lets a segment such as "..g" run into the one before it, and the plain stack fold agree exactly when no ".." takes away such a glued segment |
| DotSegments.GluedIsLost | url/uriaa_rfc2396_resolve.h:215-235 | "a/..g/../b" becomes "b", where the RFC has "a/b" |
| DotSegments.SurvivorsLead | url/uriaa_rfc2396_resolve.h:253-273 | surviving ".." segments form a leading run, so looking at the first non-empty segment finds whether one survives |
| DotSegments.AbsoluteIff | url/uriaa_rfc2396_resolve.h:199-248 | reducing an absolute path with its empty first segment keeps the root and is section 5.2 step 6 of RFC 2396 exactly when the path never climbs above its root |
| DotSegments.RfcFoldIff | url/uriaa_rfc2396_resolve.h:199-248 | the plain fold is the RFC one exactly when, in no beginning of the path behind its root, the ".." outnumber the other segments; what the RFC one starts with otherwise |
| DotSegments.RfcFoldEnds | url/uriaa_rfc2396_resolve.h:228-236 | the last segment of the RFC fold |
| DotSegments.ClimbIff | url/uriaa_rfc2396_resolve.h:199-273 | a ".." survives exactly when some beginning of the segments has more ".." than other segments |
| DotSegments.ReducesToNothingIff | url/uriaa_rfc2396_resolve.h:228-236 | without surviving "..", a path reduces to nothing exactly when the ".." cancel the other segments in front of the last one, which is empty, or cancel all but one of them before a final ".." |
| DotSegments.LastOfFold | url/uriaa_rfc2396_resolve.h:228-236 | a final ".." leaves an empty segment or stays, any other last segment stays |
| DotSegments.PairCancels | url/uriaa_rfc2396_resolve.h:209-226 | in the plain reading a segment and the ".." behind it may be taken out wherever they stand |
| DotSegments.LastPairCancels | url/uriaa_rfc2396_resolve.h:228-236 | at the end of the path they leave an empty segment |
| DotSegments.SettledStays | url/uriaa_rfc2396_resolve.h:199-248 | a path whose ".." lead it is left alone; with the two laws above this settles the plain reading |
| DotSegments.DotDotG | url/uriaa_rfc2396_resolve.h:215-235 | "..g" and "..." run into the segment before them, ".g" does not |
| PathRewrite.CutOut | url/uriaa_rfc2396_resolve.h:181-182 | the memmove of a cut removes exactly the bytes from `lo` to `hi` |
| PathRewrite.RemovePoint | url/uriaa_rfc2396_resolve.h:163-197 | the in-place loop deletes exactly the non-final "." segments, keeps the others in order, blanks a final "." with a NUL that stays in the length, and terminates |
| PathRewrite.CutFirstPoints | url/uriaa_rfc2396_resolve.h:199-243 | one scan makes at most one cut, of a stretch that ends in "/../" or a final "/..", and does not change what the path reduces to; without a cut the path is as it was, and reduced |
| PathRewrite.RemovePoints | url/uriaa_rfc2396_resolve.h:199-248 | the restarting in-place loop computes the stack fold of the segment list, on every path, and terminates |
| PathRewrite.LeadingPoints | url/uriaa_rfc2396_resolve.h:253-273 | the error test reports exactly a first non-empty segment ".." |
| PathRewrite.RemoveSegmentPoint | url/uriaa_rfc2396_resolve.h:395-441 | the same loop run on all bytes of a string: the copy reads behind the array exactly when the string fills it and holds a "." in front of its last segment; otherwise the bytes left are those of the inlined loop |
| PathRewrite.RemoveSegmentPoints | url/uriaa_rfc2396_resolve.h:445-541 | the same for "..": behind the array exactly when the string fills it and some ".." stands behind another segment; otherwise the stack fold, and a recorded size one byte too large |
| PathRewrite.NulKeepsTheLast | url/uriaa_rfc2396_resolve.h:395-541 | on a null-terminated text neither function removes a final "." or ".." |
| Resolve.Uri.RecomposedSize | url/uriaa_rfc2396_resolve.h:276-305 | the sizing pass is the bytes written, the NUL, and one byte more for every null-terminated component |
| Resolve.Uri.Recompose | url/uriaa_rfc2396_resolve.h:276-391 | the writing pass leaves exactly the recomposition of section 5.2 step 7 of RFC 2396, minus the last byte of null-terminated components, and a NUL |
| Resolve.Uri.DirectorySize | url/uriaa_rfc2396_resolve.h:96-121 | the base path is cut behind its last slash |
| Resolve.Uri.CopyMerged | url/uriaa_rfc2396_resolve.h:123-155 | base directory and relative path, one behind the other |
| Resolve.Uri.MergePaths | url/uriaa_rfc2396_resolve.h:92-273 | the merged path is rewritten by both loops, and the error test answers exactly whether a ".." survives |
| Resolve.Uri.ResolveUri | url/uriaa_rfc2396_resolve.h:27-391 | status and resolved text of the answer function; what is inherited from the base and what is left alone |
| ResolveTexts.NetworkReference | url/uriaa_rfc2396_resolve.h:73-80 | for every text that starts with "//": the resolved text is the base scheme, ":" and the text as far as it was read |
| ResolveTexts.PathReference | url/uriaa_rfc2396_resolve.h:82-93 | for every other text that starts with "/": base scheme and authority, and the text as far as it was read |
| ResolveTexts.RelativeReference | url/uriaa_rfc2396_resolve.h:95-273 | for every relative path reference: refused exactly when a ".." survives in base directory and path together; else base scheme and authority, the rewritten path, and query and fragment as they were |
| ResolveTexts.RelativeInput | url/uriaa_rfc2396_resolve.h:95-155 | "g" behind "/b/c" leaves "/b/" |
| ResolveTexts.QueryIsRefused | url/uriaa_rfc2396.h:183-225 | a text that starts with "?" is no reference to the parser, though its query stays set |
| ResolveTexts.QueryReference | url/uriaa_rfc2396_resolve.h:42-55 | a query alone is put behind the directory of the base path |
| ResolveTexts.AbsoluteReference | url/uriaa_rfc2396_resolve.h:58-61 | a reference with a scheme is left alone |
| ResolveTexts.EmptyReference | url/uriaa_rfc2396_resolve.h:42-55 | the empty text and a fragment are the current document |
| ResolveTexts.CurrentDocumentIff | url/uriaa_rfc2396_resolve.h:42-55 | the reference is the current document exactly when nothing but a fragment is set |
| ResolveTexts.OpaqueReference | url/uriaa_rfc2396_resolve.h:86-92 | with an opaque part only its first byte counts: "/" leaves the base path out |
| ResolveTexts.DirectoryIsLast | url/uriaa_rfc2396_resolve.h:96-121 | the directory of a path ends in its last "/" |
| ResolveTexts.TerminatedBase | url/uriaa_rfc2396_resolve.h:101-105 | of a null-terminated base path the last byte is not searched |
| ResolveTexts.PathOnText | url/uriaa_rfc2396_resolve.h:27-391 | from two texts: the base is any URI that round-trips, the reference any absolute path of path characters |
| Resolve.ResolvedPathIff | url/uriaa_rfc2396_resolve.h:345-349 | for every merged path that is not refused, the path of the resolved URI is the RFC one exactly when no ".." takes a glued segment, the path stays below its root by counting, and it ends in "." or, by counting, its ".." take everything away |
| Resolve.RefusedIff | url/uriaa_rfc2396_resolve.h:253-273 | without a glued segment taken away, a path is refused exactly when some beginning of it has more ".." than other segments, the root counting as one |
| Resolve.ClimbLosesTheSlash | url/uriaa_rfc2396_resolve.h:199-248 | "/../a" becomes "a" for every last segment a, where the RFC leaves "/../a" |
| Resolve.PlainPathIsCutShort | url/uriaa_rfc2396_resolve.h:345-349 | every merged path without dot segments loses its last byte |
| UriGrammar.UriReference | url/uriaa_rfc2396.h:100-137 | the cursor ends inside the text and is put back on failure |
| UriGrammar.AbsoluteUri | url/uriaa_rfc2396.h:139-181 | the cursor ends inside the text and is put back on failure |
| UriGrammar.RelativeUri | url/uriaa_rfc2396.h:183-225 | the cursor ends inside the text and is put back on failure |
| UriGrammar.HierPart | url/uriaa_rfc2396.h:227-264 | the cursor ends inside the text and is put back on failure |
| UriGrammar.OpaquePart | url/uriaa_rfc2396.h:266-307 | the cursor ends inside the text; a failure changes no component and moves the cursor only past a lone final `%` |
| UriGrammar.Authority | url/uriaa_rfc2396.h:487-519 | always succeeds, with an empty authority at the start when there is no host |
| UriGrammar.NetPathIsAdjacent | url/uriaa_rfc2396.h:309-347 | a network path is "//", authority and absolute path, all adjacent slices of the input |
| UriParser.Parser.Escaped | url/uriaa_rfc2396.h:68-98 | a whole escape is passed; a `%` that ends the text is passed too, although it is none; anything else puts the cursor back |
| UriParser.Parser.Skip | url/uriaa_rfc2396.h:1016-1026 | the loop over a class, which takes the byte behind an escape unseen, ends where the scan function says |
| UriParser.Parser.Segment | url/uriaa_rfc2396.h:1008-1070 | segment and parameters end where the grammar function says |
| UriParser.Parser.PathSegments | url/uriaa_rfc2396.h:966-1006 | the segments end where the grammar function says |
| UriParser.Parser.AbsPathRule | url/uriaa_rfc2396.h:349-379 | cursor, answer and components of the grammar function |
| UriParser.Parser.RelPathRule | url/uriaa_rfc2396.h:381-443 | cursor, answer and components of the grammar function |
| UriParser.Parser.SchemeRule | url/uriaa_rfc2396.h:445-485 | cursor, answer and components of the grammar function |
| UriParser.Parser.LabelRule | url/uriaa_rfc2396.h:741-833 | a label ends in no hyphen unless it ends the text |
| UriParser.Parser.HostnameRule | url/uriaa_rfc2396.h:687-739 | the label loop, with its step back to the last label, accepts what the grammar function says |
| UriParser.Parser.IPv4Rule | url/uriaa_rfc2396.h:835-893 | four numbers, the last not a single digit that ends the text |
| UriParser.Parser.HostRule | url/uriaa_rfc2396.h:653-685 | cursor, answer and components of the grammar function |
| UriParser.Parser.PortRule | url/uriaa_rfc2396.h:895-930 | cursor, answer and components of the grammar function |
| UriParser.Parser.HostportRule | url/uriaa_rfc2396.h:620-651 | cursor, answer and components of the grammar function |
| UriParser.Parser.AuthorityRule | url/uriaa_rfc2396.h:487-618 | authority, server and user information together: cursor, answer and components of the grammar function |
| UriParser.Parser.NetPathRule | url/uriaa_rfc2396.h:309-347 | cursor, answer and components of the grammar function |
| UriParser.Parser.OpaquePartRule | url/uriaa_rfc2396.h:266-307 | cursor, answer and components of the grammar function |
| UriParser.Parser.QueryRule | url/uriaa_rfc2396.h:1072-1102 | cursor and components of the grammar function |
| UriParser.Parser.FragmentRule | url/uriaa_rfc2396.h:1104-1134 | cursor and components of the grammar function |
| UriParser.Parser.HierPartRule | url/uriaa_rfc2396.h:227-264 | cursor, answer and components of the grammar function |
| UriParser.Parser.RelativeUriRule | url/uriaa_rfc2396.h:183-225 | cursor, answer and components of the grammar function |
| UriParser.Parser.AbsoluteUriRule | url/uriaa_rfc2396.h:139-181 | cursor, answer and components of the grammar function |
| UriParser.Parser.UriReferenceRule | url/uriaa_rfc2396.h:100-137 | cursor, answer and components of the grammar function |
| UriScan.ScanLegal | url/uriaa_rfc2396.h:1016-1026 | a loop that starts with a legal component stops at its end exactly when no escape swallows the byte behind it, or the text ends there |
| UriScan.PathIsFlat | url/uriaa_rfc2396.h:966-1070 | segments and parameters together are one run of path characters |
| UriRoundTrip.RoundTripIff | url/uriaa_rfc2396_resolve.h:276-383 | for every legal scheme, optional user information, hostname or IPv4 address, optional port, path, query and fragment: parsing the recomposed text consumes all of it and finds the same components exactly when no escape stands where it swallows a separator, the "@" included, and the text is not an address that ends in a lone digit |
| UriRoundTrip.SlicesReadBack | url/uriaa_rfc2396.h:100-181 | the slices found are the components themselves |
| UriRoundTrip.EscapeFreeRoundTrips | url/uriaa_rfc2396_resolve.h:276-383 | without escapes the round trip fails for the address that ends in a lone digit only |
| UriRoundTrip.NumbersAt | url/uriaa_rfc2396.h:835-893 | the numbers of an IPv4 address are read exactly unless the last one has one digit and ends the text |
| UriRoundTrip.HostAt | url/uriaa_rfc2396.h:653-686 | what the host function answers for every legal hostname or address |
| UriRoundTrip.UserinfoAt | url/uriaa_rfc2396.h:551-618 | user information is found exactly when no escape swallows the "@" |
| UriRoundTrip.LoneDigitLosesTheHost | url/uriaa_rfc2396.h:843-855 | the host of an address that ends in a lone digit is not found |
| UriRoundTrip.LoneDigitInput | url/uriaa_rfc2396.h:843-855 | "http://1.2.3.4" is such a text |
| UriRoundTrip.EscapeBeforeSeparator | url/uriaa_rfc2396.h:1016-1026 | an escape at the end of a path, before a query or fragment, breaks the round trip |
| UriHosts.HostIsFound | url/uriaa_rfc2396.h:653-893 | the converse of HostAt: every host the parser accepts is a hostname or an address of the RFC, exactly unless it is a name whose last label ends in "-" at the end of the text |
| UriHosts.HyphenAtTheEnd | url/uriaa_rfc2396.h:741-833 | "a-" is accepted |
| UriHosts.RegistryNameIsCut | url/uriaa_rfc2396.h:551-594 | of the registry name "a_b" only "a" is read as a host |
| UriReprint.ParsedIsReprinted | url/uriaa_rfc2396_resolve.h:276-383 | for every text the parser accepts, whatever its escapes, without opaque part or relative path: recomposing the components found gives exactly the text consumed |
| UriReprint.RelativeIsReprinted | url/uriaa_rfc2396.h:381-417 | for every relative path reference accepted: relative path, query and fragment are exactly the text consumed; an absolute path is set as the end of the relative one only |
| UriReprint.OpaqueIsReprinted | url/uriaa_rfc2396.h:266-307 | for every opaque URI accepted: scheme, opaque part and fragment are exactly the text consumed; a query is left set as well exactly when the opaque part starts with "?" |
| UriParts.SchemeIff | url/uriaa_rfc2396.h:139-181 | whether or not the text is accepted: the scheme is set exactly when the text starts with a letter, scheme characters and ":", and then to those |
| UriParts.AuthorityIsFound | url/uriaa_rfc2396.h:487-618 | every authority is empty without any component, or user information and "@", host, ":" and port side by side |
| UriChars.AsciiIsParted | url/uriaa_rfc2396.h:36-63 | every ASCII character is exactly one of reserved, unreserved and excluded |
| UriChars.UnreservedByCode | url/uriaa_rfc2396.h:37-40 | the unreserved characters by code |
| UriChars.UricLeavesOut | url/uriaa_rfc2396.h:41-44 | the characters of a URI are those of ASCII that are not excluded |
| UriChars.ClassLeavesOut | url/uriaa_rfc2396.h:43-58 | which reserved characters each class of the grammar leaves out |
| UriChars.HexByCode | url/uriaa_rfc2396.h:28-35 | digits, letters and hex digits by code |
| UriChars.PlainClasses | url/uriaa_rfc2396.h:52-53 | characters of labels, schemes and numbers |
| UriChars.EscapeIsPassed | url/uriaa_rfc2396.h:68-98 | in which classes an escape counts, that it is three bytes, and that the byte behind it is passed unseen |
| UriLocality.ScanNear | url/uriaa_rfc2396.h:1016-1026 | in front of a line break a scan loop does not depend on what follows the break |
| UriLocality.ReferenceNear | url/uriaa_rfc2396.h:100-137 | in front of a line break the whole answer depends neither on what follows it nor on what an earlier parse left in the components |
| HttpTables.NamesDiffer | http/httpaa_arrays.h:64-192 | no name stands in two header slots |
| HttpLines.FindCrlfIsFirst | http/httpaa.h:72-102 | the search finds the first CRLF |
| HttpLines.KnownIff | http/httpaa.h:578-844 | the three table searches fill a slot exactly for a line whose lower-cased name, up to ":", is the slot's |
| HttpCase.SlotIff | http/httpaa.h:578-845 | a line fills a slot exactly when its bytes up to ":" are, one by one, those of the name or the capital letters of them |
| HttpCase.CaseDoesNotMatter | http/httpaa.h:578-845 | texts that differ in letter case only have the same known headers |
| HttpCase.GeneralSlots | http/httpaa_arrays.h:72-82 | the slot number of every general header |
| HttpCase.EntitySlots | http/httpaa_arrays.h:181-192 | the slot number of every entity header |
| HttpCase.RequestSlots | http/httpaa_arrays.h:121-141 | the slot numbers of the first request headers |
| HttpCase.MoreRequestSlots | http/httpaa_arrays.h:121-141 | the slot numbers of the other request headers |
| HttpCase.HostIsKnown | http/httpaa.h:645-711 | "Host: a" fills slot 26 |
| HttpCase.ContentLengthIsKnown | http/httpaa.h:779-845 | "CONTENT-Length: 3" fills slot 12 |
| HttpLines.SucceedsIff | http/httpaa.h:420-486 | the header loop succeeds exactly when an empty CRLF line follows |
| HttpLines.EndsAtFirstEmptyLine | http/httpaa.h:447-455 | it stops right behind the first one |
| HttpLines.LastLineWins | http/httpaa.h:624-635 | a slot holds the text from ":" to the CRLF of the last line that names it |
| HttpLines.UnnamedSlotKept | http/httpaa.h:456-479 | a slot no line names is left alone, unknown lines are skipped |
| HttpLines.LinesExtend | http/httpaa.h:420-486 | a header loop that succeeds does the same on every extension of the buffer |
| HttpLines.LinesRetry | http/httpaa_utils.h:18-45 | slots filled by a try on a shorter buffer make no difference to a later try |
| HttpHead.MethodIff | http/httpaa.h:532-576 | every method of the table is recognised at the start of a request, in any case, except PUT, which never is |
| HttpHead.AcceptedIsGenuineIff | http/httpaa.h:532-576 | for every text: what is accepted as a method stands at the start of the text exactly when the text starts with its first letter and it is not PUT |
| HttpHead.GenuineMethodIff | http/httpaa.h:532-576 | a method is accepted at the start, with nothing in front of it, exactly when the text spells it there and it is not PUT |
| HttpCase.MethodNumbers | http/httpaa_arrays.h:47-56 | the number of each method at the start of any text; PUT has none |
| HttpCase.MethodInAnyCase | http/httpaa.h:545-564 | a method is found in any mixture of small and capital letters, byte by byte |
| HttpHead.FortyNineDigits | http/httpaa.h:395-408 | of a version number the first 49 digits count |
| Connection.DecimalReadsBack | http/httpaa.h:395-408 | the number read from a printed number is that number |
| HttpHead.AcceptedEndsInName | http/httpaa.h:545-564 | what is accepted as a method ends in that method's name |
| HttpHead.PutNeedsAStray | http/httpaa.h:545-564 | PUT is accepted only behind one to three letters that POST, the entry before it, has taken |
| HttpHead.StrayPutIsAccepted | http/httpaa.h:545-564 | "PPUT" is taken for PUT |
| HttpHead.StrayPrefixIsAccepted | http/httpaa.h:545-564 | "PODELETE" is taken for DELETE |
| HttpHead.UriLeft | http/httpaa.h:851-865 | the URI slice is the text read, or the rest of the buffer when the target is refused |
| HttpHead.LineNear | http/httpaa.h:488-530 | the request line is settled by the first line break of the buffer |
| HttpHead.SuccessExtends | http/httpaa_utils.h:18-45 | a head that parses parses on every extension of the buffer, with the same method, URI slices, version, header slots and cursor |
| RequestTarget.PathThenQuery | url/uriaa_rfc2396.h:349-383 | a path scan followed by a query scan ends where one flat scan over both does |
| RequestTarget.TargetIff | url/uriaa_rfc2396.h:100-181 | for every "*", absolute path with query, absolute URI with server, and authority of CONNECT, in front of a space: the URI parser stops at the space exactly when no escape of path and query takes the space along; an authority must start with a letter and have a port |
| RequestTarget.AddressIsRefused | url/uriaa_rfc2396.h:266-307 | an IPv4 address with a port is never accepted as an authority |
| RequestTarget.PathIsFound | url/uriaa_rfc2396.h:349-383 | an accepted path is found as the path, and its query as the query, exactly when no escape of the path takes the "?" along |
| HttpRequest.LineReadIff | http/httpaa.h:488-530 | for every method in any case, target and version: the request line is accepted exactly when the method is not PUT and the target is accepted; method, URI slice, version numbers and cursor it then gives |
| HttpRequest.AcceptedLineIs | http/httpaa.h:488-530 | the converse, for every text: an accepted line is a method, one space, the text of the URI, one space, "HTTP/" in any case, two numbers with a "." between them, and a line break |
| HttpRequest.HeadIff | http/httpaa_utils.h:18-45 | a buffer that starts with such a line holds a head exactly when the line is accepted and an empty line follows |
| HttpRequest.RequestIff | http/httpaa.h:420-486 | the same for the text of a request: line, any header lines, empty line, anything behind it |
| HttpRequest.RefusedForGood | http/httpaa_utils.h:18-45 | no bytes behind a refused line make it a head |
| HttpRequest.RootIsServed | http/httpaa_utils.h:18-45 | "GET / HTTP/1.1" is accepted |
| HttpRequest.EscapeAtTheEndIsRefused | url/uriaa_rfc2396.h:68-98 | "GET /%41 HTTP/1.1", a legal line, is refused whatever follows |
| HttpHead.FailureIsForgotten | http/httpaa_utils.h:18-45 | a failed try on the same struct does not change the result of a later one |
| HttpHead.SameAnswer | http/httpaa_utils.h:18-45 | whether the buffer holds a head does not depend on the struct |
| HttpHead.ChunksMakeNoDifference | worker/workeraa_http.h:50-69 | however the bytes arrive, trying after every chunk on the same struct succeeds exactly when one whole read does, with the same struct and cursor |
| HttpParser.Parser.Crlf | http/httpaa.h:48-70 | passes a CRLF or nothing |
| HttpParser.Parser.FindLineEnd | http/httpaa.h:72-102 | stops on the first CRLF, or puts the cursor back |
| HttpParser.Parser.MatchName | http/httpaa.h:590-622 | the first table entry that names the line, with the cursor on ":" |
| HttpParser.Parser.TableHeader | http/httpaa.h:578-643 | fills the slot of the entry with the text from ":" to the line end |
| HttpParser.Parser.KnownLine | http/httpaa.h:430-432 | general, request and entity headers in turn |
| HttpParser.Parser.HeaderLines | http/httpaa.h:428-481 | the loop computes the line-by-line function |
| HttpParser.Parser.MatchEntry | http/httpaa.h:545-564 | the method loop without a step back between entries |
| HttpParser.Parser.Method | http/httpaa.h:532-576 | index and cursor of the method recognised |
| HttpParser.Parser.Atoi | http/httpaa.h:395-408 | the decimal value of the first 49 digits at most |
| HttpParser.Parser.HttpVersionRule | http/httpaa.h:323-418 | both numbers and the cursor, or nothing changed |
| HttpParser.Parser.RequestUriRule | http/httpaa.h:851-865 | the URI parser is run on the rest of the buffer and its slice is cut to what it consumed |
| HttpParser.Parser.RequestLineRule | http/httpaa.h:488-530 | struct and cursor of the request line function |
| HttpParser.Parser.RequestRule | http/httpaa.h:420-486 | struct and cursor of the request function |
| HttpParser.Parser.ParseRequestHeaders | http/httpaa_utils.h:18-45 | two line breaks are awaited, the buffer is parsed from its beginning, and a failure puts the cursor back |
| Connection.StepKeepsGood | socket/socketaa_worker.h:226-287 | every turn of the loop keeps the invariant, whatever select, recv and send return |
| Connection.EveryRunIsSafe | socket/socketaa_worker.h:177-290 | in every run of a fresh struct: the wire is a prefix of the one response, nothing is sent before the bytes received hold the head of a GET request, and the "nothing left" close happens only when wire and response are equal |
| Connection.SendingDelivers | socket/socketaa_worker.h:122-175 | once the loop sends and send keeps taking bytes, the whole response is delivered and only then the loop stops |
| Connection.HeadIsAnswered | worker/workeraa_http.h:169-228 | from any waiting state: a GET head the parser accepts, cut into pieces in any way, is answered in full while recv and send go on |
| Connection.RequestIsAnswered | worker/workeraa_http.h:169-228 | for the text of every request that fits the receive buffer, cut into pieces in any way, while recv and send go on: a GET request whose target is accepted is answered in full, and to any other nothing is sent |
| Connection.Collected | socket/socketaa_worker.h:67-121 | what is received is a beginning of what arrives, the full buffer included, as long as no GET head is in it |
| Connection.OtherLineIsNotAnswered | worker/workeraa_http.h:169-228 | whatever select, recv and send return, nothing is sent when the bytes received start with a legal line that is refused or has another method |
| Connection.NoRecvAfterSend | worker/workeraa_http.h:184-192 | a connection that has sent a byte never receives again |
| Connection.SendShutdownIsNeverSeen | socket/socketaa_worker.h:150-155 | in no run is the shutdown flag of the sending side set |
| Connection.ZeroSendsNeverEnd | socket/socketaa_worker.h:122-175 | for any number of turns in which send takes no byte of a rest, the loop goes on and neither wire nor state changes, but for the response being built |
| ConnectionClose.OpenIff | socket/socketaa_worker.h:226-287 | for every run: the loop is still open exactly when no event on the way was a timeout or failure of select, a full buffer or an error while receiving, an empty rest or an error while sending |
| ConnectionClose.EndedBy | socket/socketaa_worker.h:177-290 | a loop that has ended was ended by one event, whose close reason the struct shows, and nothing changed afterwards |
| ConnectionClose.TimeoutCloses | socket/socketaa_worker.h:275-281 | a timeout closes a fresh connection |
| ConnectionClose.ShutdownIsSleep | socket/socketaa_worker.h:67-121 | behind a shutdown of the other side while receiving the loop watches nothing: only a timeout or a failure of select ends it |
| ConnectionClose.OddResultIsSleep | socket/socketaa_worker.h:226-287 | a result of select below -1 closes nothing, and the loop watches nothing afterwards |
| ConnectionClose.SendFlags | socket/socketaa_worker.h:122-175 | behind a turn that sends the loop goes on sending; after an error it is set to receive |
| ConnectionClose.GetTurnsToSending | worker/workeraa_http.h:184-192 | a GET head turns the loop to sending and clears the shutdown flags |
| ConnectionClose.BufferSizes | worker/workeraa_definitions.h:37-41 | request and response buffer hold a mebibyte each, and the response fits |
| ConnectionClose.OtherMethodFillsUp | worker/workeraa_http.h:50-69 | a request with another method than GET is received until the buffer is full, and then closed, unanswered |
| Connection.TryHead | worker/workeraa_http.h:50-69 | a try on a grown buffer answers and fills the struct as a fresh struct would |
| Connection.LengthIsAnnounced | worker/workeraa_http.h:91-125 | the response text, whose announced length is the length of its body |
| ConnectionWorker.Worker.constructor | worker/workeraa_http.h:259-304 | the fresh struct and flags |
| ConnectionWorker.Worker.HttpRecv | worker/workeraa_http.h:169-202 | the receive callback, with the flag word overwritten for GET |
| ConnectionWorker.Worker.RecvTurn | socket/socketaa_worker.h:21-120 | receive and check: every result of recv and a full buffer |
| ConnectionWorker.Worker.CreateResponse | worker/workeraa_http.h:91-125 | the appends build exactly the response |
| ConnectionWorker.Worker.HttpSend | worker/workeraa_http.h:207-228 | the response is built the first time only |
| ConnectionWorker.Worker.SendTurn | socket/socketaa_worker.h:45-175 | send and check: every result of send and an empty rest |
| ConnectionWorker.Worker.SendResult | socket/socketaa_worker.h:122-175 | flags and close for every number send can report, the branch of the shutdown number included |
| ConnectionWorker.Worker.Turn | socket/socketaa_worker.h:226-287 | one turn of the loop is one step of the state machine |
| ConnectionWorker.Worker.Run | socket/socketaa_worker.h:177-290 | the loop is a run of the state machine |
| StringBuffer.AppendKeepsIff | string/stringaa.h:234-280 | an append keeps what was there exactly when nothing is moved, or the string is initialised and does not fill its buffer |
| StringBuffer.FullStringLosesItsEnd | string/stringaa.h:252-262 | appending to a string that fills its array loses its last byte |
| StringBuffer.SeriesIsConcatenation | string/stringaa.h:633-657 | any series of appends to an owned buffer is concatenation and keeps room behind the data across every reallocation |
| StringBuffer.AppendSize | string/stringaa.h:633-657 | when an append moves the string, and the size of the new array, in bytes |
| StringBuffer.String.Malloc | string/stringaa.h:201-230 | a new null-terminated array unless one at least as large is owned |
| StringBuffer.String.Realloc | string/stringaa.h:234-280 | refused for a smaller size; otherwise what is kept, and the new size |
| StringBuffer.String.AddChars | string/stringaa.h:633-657 | the append, and the terminator behind the data |
| StringBuffer.String.Add | string/stringaa.h:676-693 | appends what the other string has left to read |
| StringBuffer.String.Put | string/stringaa.h:355-369 | a byte is added when there is room behind it, and lost otherwise |
| StringBuffer.String.Find | string/stringaa.h:699-753 | the least position of a non-empty, zero-free pattern, -1 in all other cases; the backtracking scan terminates |
| UriEscape.CharRoundTrip | url/uriaa_utils.h:32-85 | a byte comes back from its two hex digits |
| UriEscape.AtMostThreefold | url/uriaa_utils.h:167-224 | escaped text is at most three times as long |
| UriChars.NothingLeft | url/uriaa_utils.h:167-224 | no byte of an escaped text is a control, a space, a delimiter or an unwise character, nor a reserved one when asked for, but the "%" of escapes |
| UriChars.ByteIs | url/uriaa_utils.h:32-50 | a byte that must go becomes "%" and two capital hex digits that decode to it, every other one stays |
| UriChars.UnchangedIff | url/uriaa_utils.h:167-224 | a text stays as it is exactly when no byte of it must go |
| UriChars.EscapedJoin | url/uriaa_utils.h:167-224 | texts are escaped byte by byte |
| UriChars.EscapedIsWellFormed | url/uriaa_utils.h:167-224 | every "%" of an escaped text starts an escape |
| UriChars.SpaceAndBrace | url/uriaa_utils.h:188-200 | " " becomes "%20", "{" "%7B" |
| UriChars.DigitIff | url/uriaa_utils.h:52-85 | the hex digits of both cases, and six more characters that pass for digits |
| UriChars.BadEscapeFails | url/uriaa_utils.h:104-162 | an escape whose digits do not decode ends the text with a failure |
| UriChars.BuffersAreShort | url/uriaa_utils.h:96-98 | escaping asks for three bytes, unescaping for one byte, for each of the text, the terminator included |
| UriChars.EmptyTextIsNul | url/uriaa_utils.h:104-162 | into a destination with room, the empty text is escaped to "%00" and unescaped to a NUL byte |
| UriChars.CutOffIff | url/uriaa_utils.h:104-162 | an escape that is cut off ends the text, and is reported as a success exactly when an escape came before it |
| UriEscape.DocumentedUndoes | url/uriaa_utils.h:87-162 | writing the decoded byte, as documented, unescaping undoes escaping for every text and either flag |
| UriEscape.WrittenUndoesIff | url/uriaa_utils.h:87-224 | the code, which writes the low hex digit and loses what does not fit, gives a text back exactly when it is empty |
| UriEscape.UnreservedKeepsMeaning | url/uriaa_utils.h:119-137 | with room for the result: unescaping only unreserved characters keeps well-formedness and the full decoding, and is idempotent |
| UriEscape.ShrinksIff | url/uriaa_utils.h:119-137 | that makes a well-formed text shorter exactly when it has an escape of an unreserved character |
| UriEscape.WrittenKeepsMeaningIff | url/uriaa_utils.h:90-162 | with the buffer of the code, which is as long as the text with the terminator included: the full decoding is kept exactly when the text has an escape of an unreserved character; otherwise the result is the text without its last byte |
| UriEscape.WrittenIdempotentIff | url/uriaa_utils.h:90-162 | with that buffer, doing it again changes nothing only for a text of one byte |
| UriEscape.PlainLetterIsLost | url/uriaa_utils.h:96-98 | the text "a" is unescaped to nothing |
| UriEscape.UnescapeByte | url/uriaa_utils.h:52-85 | both digits, low one first, or failure |
| UriEscape.Escape | url/uriaa_utils.h:169-224 | for every text, the empty one included, and every destination: the loop writes the escaped text, cut to the room the buffer has |
| UriEscape.Unescape | url/uriaa_utils.h:90-162 | for every text, the empty one included, and every destination: the loop writes the unescaped text, cut to the room the buffer has, and reports as the code does |
| DecimalMul.MulChar | string/stringaa_math.h:24-34 | product, carry and accumulator: two digits of the sum, the carry stays a digit |
| DecimalMul.AddRow | string/stringaa_math.h:80-103 | a row adds one digit's multiple of the operand at its place; the carry is 0 at its end, also when it runs into the front |
| DecimalMul.Mul | string/stringaa_math.h:39-117 | the digits have the value of the product, for digit strings of any length, leading zeros included |
| DecimalMul.ValMore | string/stringaa_math.h:39-117 | the value of a digit string is its digits in base ten |
| DecimalMul.ValIsInjective | string/stringaa_math.h:39-117 | so the digits of the product are determined by its value and their number |

## Left out

- Pool: the clamping of indices above the size, the failure of lock, unlock and signal, and the order in which blocked threads are woken.
- PoolSync.Sync.SetWork: the struct of a slot is one field; its bytes, and the connection a job carries, are opaque.
- Resolve.Uri.ResolveUri: non-empty base paths without any "/", freeing of old buffers, and debug output.
- UriRoundTrip.RoundTripIff: URIs without an authority and opaque ones; `ParsedIsReprinted` covers the former from the other side.
- UriReprint.ParsedIsReprinted: opaque parts and relative paths, which the recomposition does not write; `RelativeIsReprinted` and `OpaqueIsReprinted` are about them.
- RequestTarget.TargetIff: absolute URIs with user information, a fragment or an opaque part, and paths that start with "//", which are network paths.
- PathRewrite.RemoveSegmentPoint: what the bytes are after a copy has read behind the array.
- PathRewrite.RemoveSegmentPoints: the same.
- HttpParser.Parser.Atoi: numbers that do not fit an `int`.
- HttpParser.Parser.RequestUriRule: an empty rest of the buffer, which the test for two line breaks keeps away.
- HttpParser.Parser.RequestLineRule: a buffer without a line break, which the same test keeps away.
- HttpParser.Parser.RequestRule: a buffer without a line break, which the same test keeps away.
- HttpParser.Parser.TableHeader: slots are slices of the receive buffer; that they are pointers into it is not modelled.
- DecimalMul.Mul: empty operands, and the conversion between characters and digits.
- StringBuffer.String.Find: a string searched in itself, whose two cursors are one, and positions above the range of `int`.
- UriEscape.Escape: a destination that is partly read, or that shares its array with the text and keeps it.
- UriEscape.Unescape: the same destinations.
- StringBuffer.String.Add: two different strings that share an array.
- Connection.EveryRunIsSafe: reuse of one struct for a second connection, whose progress flags are not cleared (worker/workeraa_http.h:276-299).
- The file name a GET request is mapped to (http/httpaa_work.h), which does not change what is sent.
- Per-header value parsers, quoted strings, comments and tokens of http/httpaa.h, which the request parser never calls.
- String links, printing, `stringaa_add`, `stringaa_sub` and `stringaa_compare` of string/stringaa_math.h.
- Sockets, accept, the client, thread creation and the Windows branches: system calls only.
