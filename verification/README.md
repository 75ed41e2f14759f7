# Backk: models and proofs

Backk is a framework for microservices on top of MongoDB or an SQL database. This project models the
parts of it that are algorithms or protocols and proves what they promise, for all inputs, all runs
and all interleavings.

| file | models |
|---|---|
| Common.dfy | optional values and joining of sequences |
| CronClaim.dfy | the protocol by which replicas claim the instants of a cron job through its shared row |
| CronTable.dfy | the table of these rows with the names they are written and read under, start-ups and the callback |
| LikeRegExp.dfy | SQL LIKE patterns compiled to JavaScript regular expressions |
| FilterCompiler.dfy | user-defined filters compiled to MongoDB match expressions, and merging by spread |
| SubEntityClass.dfy | finding the class of a sub-entity by its path |
| SelectionParser.dfy | the line parser for GraphQL and JSON field selections, with its path stack kept in a string |
| Projection.dfy | the projection computed from included and excluded fields |
| Text.dfy | trimming, splitting and joining of texts |
| ErrorCodec.dfy | errors printed to and parsed from text |
| Bytes.dfy | UTF-8 with replacement of ill-formed input, and base64 |
| Envelope.dfy | encrypted strings, and the length of the column that stores them |
| CharacterRuns.dfy | the check for runs of equal, ascending or keyboard-neighbouring characters |
| EncryptedSearch.dfy | which fields are encrypted, and equality search on user-name fields |
| EntityObjects.dfy | entities as objects on the heap, and trees as their snapshots |
| EntityCrypto.dfy | hashing, encrypting and decrypting nested entities in place |
| RemoveSubEntities.dfy | removing sub-entities by identity, in place |
| PageTokens.dfy | tokens that admit only to the current, previous or next page |
| Pages.dfy | pages of rows and of sub-entities |
| MultiCall.dfy | several service calls in one request, sequential and parallel |
| ParentSearch.dfy | the depth-first search for the holder of a sub-entity type |

`dafny verify dfyconfig.toml` checks all of it.

## How the models are built

Code that computes is a function with lemmas about it. Code that changes things is a class or a method
with a loop, proved against a function whose properties are lemmas. Entities are objects on the heap;
each walk over them carries a ghost tree, the snapshot of the heap it works on, and its contract says
which tree the heap shows afterwards. Snapshots are linear, no object occurs twice in one, so a walk on
one property provably leaves all others alone.

Interleavings are part of the statements: a cron trace is any sequence of atomic attempts of any
replicas, a run of page requests is any sequence of accepted and rejected requests with replayed
tokens, and parallel calls are answered in any order.

Things outside the code are parameters: the schedule (strictly increasing instants at least a second apart),
the block cipher (invertible, padding to whole blocks of 16 bytes with at least one byte, so that what it
opens is shorter than what it was given), the message authentication code (injective where runs of requests
are followed, 32 bytes in base64 where validation is), the regular expressions of the platform where syntax
gets into them that is not modelled, case folding and lower-casing, the library that lays out JSON text,
hashes and random bytes (arbitrary), clocks, and what the database and the called functions answer.

## What turned out differently from what one would expect

Each of these is a theorem below.

- The start-up writes the row of a cron job under the name of the class, and the callback looks for it under
  the name of the microservice's property (`CronTable.NamesAgreeExactly`). In the layout of
  docs/api/MICROSERVICE_CLASS.MD, with a property userAccountService and a class UserAccountServiceImpl,
  they differ. Then with an SQL store the job never runs and no restart revives it
  (`CronTable.SqlJobRunsExactly`, `CronTable.DocumentedLayoutNeverRuns`), and with MongoDB every attempt of
  every replica runs it without any check (`CronTable.UnwrittenJobRunsEveryTime`). The following points on
  cron jobs, and all of CronClaim, are about jobs for which the names agree
  (`CronTable.RowFollowsSteps`).
- A cron instant that passes without a successful claim stops the job until a replica restarts
  (`CronClaim.MissedInstantStopsTheJob`, `CronTable.StartUpRevivesTheJob`): the window check compares
  with the instant in the row, which then never comes again. A failed check counts as success, so it is
  not retried either.
- `next()` is called on every attempt, so a second attempt that succeeds inside the window writes the
  instant after next and the one between is not run (`CronClaim.EveryInstantRunsOnce`).
- An attempt that commits and writes an instant less than half a second away from its own time leaves the
  row where it was, so that the instant can be run again, and nothing else makes an instant run twice.
  First attempts shortly before the next instant are such attempts
  (`CronClaim.LateAttemptRunsAnInstantTwice`, `CronClaim.ClaimIsRepeatableExactly`,
  `CronClaim.RunRepeatsExactly`, `CronClaim.OnlyEarlyFirstAttempts`). With restarts, any
  claim ahead of its instant can (`CronTable.StartUpRepeatsExactly`).
- An OR filter drops the filters before it, and of two filters on one field only the later counts
  (`FilterCompiler.LaterOrDropsFilter`, `FilterCompiler.ConjunctionExactlyIfNothingDisplaced`). An
  alternative without an operator, or with the operator OR, makes its OR accept everything
  (`FilterCompiler.OpenAlternativeExactly`).
- Filters on fields of the entity itself, and alternatives, are never checked for read denial, because
  no class is found for their empty path (`SubEntityClass.NoClassForRootOrDeepPaths`).
- A LIKE pattern with a range that runs backwards makes compilation throw
  (`LikeRegExp.RefusedExactly`), and in a bracket group that opens with a closing bracket other characters
  keep their meaning in regular expressions (`LikeRegExp.SyntaxInEmptyGroupIsNotEscaped`).
- An empty object in a JSON selection cuts the path of the fields behind it
  (`SelectionParser.EmptyGroupCutsPath`). The pattern on includeResponseFields in
  src/types/postqueryoperations/DefaultPostQueryOperationsImpl.ts refuses texts with a brace, so such a text
  reaches the parser only if service code sets it or another argument class is used.
- Decryption converts the last block to text on its own and damages a character that lies across its
  beginning (`Envelope.AccentedTextIsDamaged`).
- The strength check of the encryption key does not look for runs, because no key long enough is short
  enough for the run check (`CharacterRuns.LongTextsPass`); docs/OWASP_TOP_TEN_CHECKLIST.MD says that
  the key must pass strength checks.
- A user-name field marked as not encrypted cannot be found by equality
  (`EncryptedSearch.UnencryptedUserNameIsNotFound`).
- A field that is both hashed and encrypted by its name, such as emailPassword, loses its hash when it is
  read (`EntityCrypto.HashSurvivesReading`).
- A null in an encrypted array makes the entity unreadable (`EntityCrypto.NullInArrayBlocksReading`,
  `EntityCrypto.SealedOpensExactly`).
- An array of numbers given for a user-name field is encrypted like the text it spells
  (`EncryptedSearch.SearchFindsExactlyTheBytes`).
- The first page of sub-entities is never cut, because the guard asks the row and not the array for its
  length (`Pages.SubPageIsPage`); docs/api/GET_ENTITIES.MD promises a first page of 50 sub-entities. The
  entity count it promises is, for sub-entities, the number on the page (`Pages.CountIsOfThePage`).
- No client gets a page with a page token: the field for it must be alphanumeric, and the base64 of 32 bytes
  ends in an equals sign (`PageTokens.IssuedTokensAreInvalid`, `PageTokens.ValidRequestsFetchNothing`).
  What the data store itself promises about pages holds behind that validation. There, tokens are handed out
  only to those who have one, and are not bound to the list they are for
  (`PageTokens.NoTokenWithoutToken`, `PageTokens.TokensAreNotBoundToPaths`).
- In parallel execution a failing local call skips nothing, although the code looks for an earlier
  error before each call (`MultiCall.LocalCallsAreNotSkipped`).

## Model

| member | source | states |
|---|---|---|
| CronClaim.ClaimsStrictlyIncrease | src/scheduling/scheduleCronJobsForExecution.ts:28-101 | In every interleaving of timely attempts of any replicas the row never moves back, committed instants strictly increase and stay before the row |
| CronClaim.NoInstantRunsTwice | src/scheduling/scheduleCronJobsForExecution.ts:42-91 | No scheduled instant is claimed by two committed runs |
| CronClaim.CommitMoves | src/scheduling/scheduleCronJobsForExecution.ts:50-55 | A committed claim moves the row forward, or leaves it at an instant that can still be claimed, or moves it back to one that never can be again, and which of these is decided by the instant written and the clock |
| CronClaim.OnlyEarlyFirstAttempts | src/scheduling/scheduleCronJobsForExecution.ts:32-55 | Before the next instant only a first attempt in the half second in front of it can leave the row claimable, and if it commits it has claimed that next instant |
| CronClaim.ClaimIsRepeatableExactly | src/scheduling/scheduleCronJobsForExecution.ts:42-91 | After a claim, timely attempts that follow can run an instant twice if and only if the claiming attempt wrote an instant less than 500 ms away from its own time |
| CronClaim.RunRepeatsExactly | src/scheduling/scheduleCronJobsForExecution.ts:28-101 | For every run of attempts in the order of their times, timely or not: an instant runs twice if and only if such an attempt commits and another attempt commits after it |
| CronClaim.LateAttemptRunsAnInstantTwice | src/scheduling/scheduleCronJobsForExecution.ts:50-55 | Without the timing bound an instant can be run twice: concrete schedule and trace |
| CronClaim.RoundElsewhere | src/scheduling/scheduleCronJobsForExecution.ts:53-62 | The attempts of one instant cannot touch a row that is at another instant |
| CronClaim.RoundAtItsInstant | src/scheduling/scheduleCronJobsForExecution.ts:42-91 | Of all attempts of an instant the first whose job succeeds in the window claims it, once, and moves the row on by its attempt number; failed jobs leave it for others |
| CronClaim.MissedInstantStopsTheJob | src/scheduling/scheduleCronJobsForExecution.ts:53-62 | If an instant passes unclaimed, no later firing ever runs the job again |
| CronClaim.RowAheadWaits | src/scheduling/scheduleCronJobsForExecution.ts:50-55 | A row that a later attempt moved too far is not claimed until the schedule reaches it |
| CronClaim.ProtocolRefinesIndices | src/scheduling/scheduleCronJobsForExecution.ts:28-101 | The timed protocol refines a machine on schedule indices, over any number of rounds |
| CronClaim.EveryInstantRunsOnce | src/scheduling/scheduleCronJobsForExecution.ts:28-101 | The committed runs are exactly the instants, once each and in order, if and only if in each round the first attempt to succeed in the window is a first attempt |
| CronClaim.RetryComesTooLate | src/scheduling/scheduleCronJobsForExecution.ts:34-35 | A retry that waited a second or longer never runs the job for its instant |
| CronTable.PropertyOf | src/scheduling/scheduleCronJobsForExecution.ts:25-26 | The property found is the first one that holds a service of the class, and empty if there is none |
| CronTable.NamesAgreeExactly | src/scheduling/scheduleCronJobsForExecution.ts:25-27 | The name the callback reads is that of the property and the function, and it is the name the start-up writes, of the class and the function, if and only if the property is named like the class |
| CronTable.UnwrittenJobNeverRuns | src/datastore/sql/operations/dml/updateEntityByFilters.ts:72-74 | With an SQL store a job whose name is not written never runs, in any run of start-ups and attempts of any replicas |
| CronTable.JobRunsExactlyIfItsNameIsWritten | src/scheduling/scheduleCronJobsForExecution.ts:25-47 | With an SQL store some run of start-ups and attempts runs the job if and only if the name it reads is written for some job |
| CronTable.SqlJobRunsExactly | src/scheduling/scheduleCronJobsForExecution.ts:25-47 | Unless another class is named like the property: with an SQL store the job can run if and only if the property that holds its service has the name of the class |
| CronTable.DocumentedLayoutNeverRuns | docs/api/MICROSERVICE_CLASS.MD:13-24 | With the property and class names of the documentation and an SQL store no run of start-ups and attempts runs the job |
| CronTable.UnwrittenJobRunsEveryTime | src/datastore/MongoDbDataStore.ts:1441-1461 | With MongoDB the times at which such a job runs are exactly those of all attempts of all replicas whose job and commit succeed; nothing is checked |
| CronTable.RowFollowsSteps | src/scheduling/tryInitializeCronJobSchedulingTable.ts:16-24 | If the names agree and no other job reads the row, the row of a job changes over any run of the table as the single row does whose theorems are those of CronClaim |
| CronTable.StartUpsKeepClaimsIncreasing | src/scheduling/tryInitializeCronJobSchedulingTable.ts:29-44 | If the names agree, rewriting the row at start-ups, anywhere between attempts, keeps the claims strictly increasing if the attempts that commit are timely and claim no instant before it has come |
| CronTable.StartUpRepeatsExactly | src/scheduling/tryInitializeCronJobSchedulingTable.ts:29-44 | If the names agree: after a timely claim, some following start-ups and attempts run an instant twice if and only if the claim came before the instant |
| CronTable.StartUpRevivesTheJob | src/scheduling/tryInitializeCronJobSchedulingTable.ts:37-43 | If the names agree, a start-up before the next instant makes a job that a missed instant had stopped run again |
| CronTable.CronInterval.constructor | src/scheduling/scheduleCronJobsForExecution.ts:32 | An interval is created at a firing and starts after the last instant that has passed |
| CronTable.CronInterval.Next | src/scheduling/scheduleCronJobsForExecution.ts:50 | Each call returns the instant after the one returned before, so attempt m of a firing gets the m-th following instant |
| CronTable.ScheduleStore.constructor | src/scheduling/tryInitializeCronJobSchedulingTable.ts:12 | A new table is empty |
| CronTable.ScheduleStore.Begin | src/datastore/AbstractSqlDataStore.ts:392-395 | Beginning a transaction remembers the rows and changes none |
| CronTable.ScheduleStore.Rollback | src/datastore/AbstractSqlDataStore.ts:417-422 | Rolling back restores the rows as they were at the beginning |
| CronTable.ScheduleStore.Commit | src/datastore/AbstractSqlDataStore.ts:423-428 | Committing keeps the rows |
| CronTable.ScheduleStore.Put | src/scheduling/tryInitializeCronJobSchedulingTable.ts:32-43 | Creating or updating a row changes that row and no other |
| CronTable.ScheduleStore.UpdateByFilters | src/scheduling/scheduleCronJobsForExecution.ts:45-58 | The row of that name is written if and only if the clock is less than 500 ms away from the instant in it, otherwise the answer is a bad request; without a row of that name nothing is written and the answer is that of the store |
| CronTable.InitializeRow | src/scheduling/tryInitializeCronJobSchedulingTable.ts:21-47 | The transaction of one job writes its row, under the name of class and function, with the first instant after the clock and the time stamp 120000 |
| CronTable.InitializeTable | src/scheduling/tryInitializeCronJobSchedulingTable.ts:15-57 | A start-up is a run of such transactions, one for every job, in any order |
| CronTable.TryClaimAndRun | src/scheduling/scheduleCronJobsForExecution.ts:38-98 | One iteration has exactly the effect of one atomic attempt on the table: a claim is committed only if update, job and commit succeed, every failure restores the rows, and `next()` is called unless the transaction could not begin; it ends the firing if and only if the job ran and all succeeded, or the clock is 500 ms or more away from the row and nothing else failed, or, without a row, the store answers success and all succeeded |
| CronTable.Fire | src/scheduling/scheduleCronJobsForExecution.ts:32-101 | A whole firing, with any transactions of other replicas between its attempts, does to the table what the recursive description says |
| CronTable.FiredIsRun | src/scheduling/scheduleCronJobsForExecution.ts:32-101 | And that is the run of the atomic attempts and start-ups it interleaves |
| CronTable.FailedTurnIsFollowed | src/scheduling/scheduleCronJobsForExecution.ts:34-97 | After a turn whose begin, update, job or commit fails, or that finds no row where that is an error, the next turn is taken and the table is as the other replicas left it; after any other turn none is |
| CronTable.FirstSuccessClaims | src/scheduling/scheduleCronJobsForExecution.ts:34-97 | A firing whose first turns fail so and whose next one succeeds runs the job once and moves the row to the instant that as many calls of `next()` lead to as transactions began |
| CronTable.SecondAttemptMovesByTwo | src/scheduling/scheduleCronJobsForExecution.ts:34-97 | A job that fails inside the window and succeeds there at the second attempt moves the row to the second instant after the firing |
| CronTable.SecondAttemptRunsWithoutRow | src/scheduling/scheduleCronJobsForExecution.ts:34-97 | Without a row, in a store that answers success, the second attempt runs the job |
| LikeRegExp.GroupLength | src/datastore/mongodb/convertUserDefinedFiltersToMatchExpression.ts:8 | The length of the shortest bracket group at the start: something between brackets, without line terminators; 0 if and only if there is none |
| LikeRegExp.EscapedExactlyWhenNeeded | src/datastore/mongodb/convertUserDefinedFiltersToMatchExpression.ts:12-20 | Every character that is syntax in a regular expression is escaped, and every escape made stands for the character itself |
| LikeRegExp.ReadChar | src/datastore/mongodb/convertUserDefinedFiltersToMatchExpression.ts:12-20 | The text for one pattern character is read back as that character, one wildcard, or a starred wildcard |
| LikeRegExp.ReadGroup | src/datastore/mongodb/convertUserDefinedFiltersToMatchExpression.ts:8-11 | The text for a bracket group that does not open with a closing bracket is read back as one character class with the same members, and is a syntax error exactly if a range runs backwards |
| LikeRegExp.NoLeadingStar | src/datastore/mongodb/convertUserDefinedFiltersToMatchExpression.ts:6-23 | No compiled element changes how the one before it is read |
| LikeRegExp.RefusedExactly | src/datastore/mongodb/convertUserDefinedFiltersToMatchExpression.ts:5-26 | The RegExp constructor throws for a pattern if and only if one of its bracket groups has a range that runs backwards, syntax in a group that opens with a closing bracket aside |
| LikeRegExp.SyntaxInEmptyGroupIsNotEscaped | src/datastore/mongodb/convertUserDefinedFiltersToMatchExpression.ts:10-11 | A concrete pattern with a star in a group that opens with a closing bracket: it describes no text, but its expression matches one |
| LikeRegExp.SameMembers | src/datastore/mongodb/convertUserDefinedFiltersToMatchExpression.ts:10-11 | Class and bracket group have the same members, ranges included |
| LikeRegExp.StarTakesPrefix | src/datastore/mongodb/convertUserDefinedFiltersToMatchExpression.ts:14-15 | The starred dot matches any prefix without line terminators and leaves the rest to the remaining elements |
| LikeRegExp.ElementsMatchLike | src/datastore/mongodb/convertUserDefinedFiltersToMatchExpression.ts:5-26 | Matching the elements is the LIKE relation with wildcards that do not cover line terminators |
| LikeRegExp.KeepsMeaningExactly | src/datastore/mongodb/convertUserDefinedFiltersToMatchExpression.ts:5-26 | For every pattern: it is accepted and its expression matches exactly what it describes, with such wildcards, if and only if no range runs backwards or, where a group opens with a closing bracket, the source text can be read and matches nothing |
| LikeRegExp.RegExpIsLikeOnVisibleText | src/datastore/mongodb/convertUserDefinedFiltersToMatchExpression.ts:5-26 | Such a pattern is not refused, and its expression accepts exactly what the pattern describes with such wildcards, for every subject |
| LikeRegExp.RegExpImpliesLike | src/datastore/mongodb/convertUserDefinedFiltersToMatchExpression.ts:5-26 | Every match of the expression of such a pattern is a LIKE match |
| LikeRegExp.RegExpIsLike | src/datastore/mongodb/convertUserDefinedFiltersToMatchExpression.ts:5-26 | A subject is treated as LIKE treats it, under all such patterns, if and only if it has no line terminator |
| FilterCompiler.AlternativesByIndex | src/datastore/mongodb/convertUserDefinedFiltersToMatchExpression.ts:200-202 | Each alternative of an OR is compiled alone, and the OR compiles if and only if all of them do |
| FilterCompiler.CompiledHoldsLive | src/datastore/mongodb/convertUserDefinedFiltersToMatchExpression.ts:188-246 | The compiled expression holds the conditions of the filters that no later filter displaces, and no others |
| FilterCompiler.ConditionMeans | src/datastore/mongodb/convertUserDefinedFiltersToMatchExpression.ts:212-240 | The condition of each operator accepts exactly the values for which the operator holds |
| FilterCompiler.SoundPatternMeans | src/datastore/mongodb/convertUserDefinedFiltersToMatchExpression.ts:230-235 | For every pattern that keeps its meaning, LIKE in a filter is LIKE with wildcards that do not cover line terminators |
| FilterCompiler.SingleFilterMeans | src/datastore/mongodb/convertUserDefinedFiltersToMatchExpression.ts:198-246 | A filter compiled alone accepts exactly the documents it means, through OR trees of any depth |
| FilterCompiler.AppendedField | src/datastore/mongodb/convertUserDefinedFiltersToMatchExpression.ts:189-245 | One more filter of a field changes nothing if reading that field of that sub-entity is denied, and is refused without a field name or with a refused pattern; otherwise a document is accepted if and only if its field satisfies the operator, a missing field counting as null, and it satisfies what there was apart from that field |
| FilterCompiler.AppendedOr | src/datastore/mongodb/convertUserDefinedFiltersToMatchExpression.ts:189-204 | One more OR changes nothing if it is read-denied; otherwise a document is accepted if and only if some alternative compiled alone accepts it |
| FilterCompiler.ComparisonsOfNumbers | src/datastore/mongodb/convertUserDefinedFiltersToMatchExpression.ts:218-225 | The comparison operators are those of the integers |
| FilterCompiler.ComparisonsOfTexts | src/datastore/mongodb/convertUserDefinedFiltersToMatchExpression.ts:218-225 | On texts they compare the first characters that differ |
| FilterCompiler.ComparisonsOfBooleans | src/datastore/mongodb/convertUserDefinedFiltersToMatchExpression.ts:218-225 | False comes before true |
| FilterCompiler.DifferentTypesAreNotOrdered | src/datastore/mongodb/convertUserDefinedFiltersToMatchExpression.ts:218-225 | Values of different types satisfy no comparison |
| FilterCompiler.SubEntityFilterIsSkippedExactly | src/datastore/mongodb/convertUserDefinedFiltersToMatchExpression.ts:189-196 | A filter with the path of a property of the entity is left out if and only if reading its field is denied in the class that the property is declared with |
| FilterCompiler.NothingDeniedAtRoot | src/datastore/mongodb/convertUserDefinedFiltersToMatchExpression.ts:189-196 | Not asking for the class at the path of the entity itself, or of all paths, makes no difference |
| FilterCompiler.CompiledMeansLiveFilters | src/datastore/mongodb/convertUserDefinedFiltersToMatchExpression.ts:183-247 | For every list of filters, a document is accepted if and only if every filter that is not displaced is satisfied |
| FilterCompiler.CompiledMeansAllFilters | src/datastore/mongodb/convertUserDefinedFiltersToMatchExpression.ts:183-247 | If fields are distinct and an OR comes only in front, the list means the conjunction of its filters; filters on read-denied sub-entity fields demand nothing |
| FilterCompiler.DisplacedFilterIsLost | src/datastore/mongodb/convertUserDefinedFiltersToMatchExpression.ts:198-245 | If a later filter displaces an earlier one, there are filters of the same paths, fields and kinds that pass validation and do not mean their conjunction |
| FilterCompiler.ConjunctionExactlyIfNothingDisplaced | src/datastore/mongodb/convertUserDefinedFiltersToMatchExpression.ts:183-247 | No filter is displaced by a later one if and only if all lists with the same paths, fields and kinds of filters that pass validation mean the conjunction of their filters |
| FilterCompiler.OrForgetsEarlierFilters | src/datastore/mongodb/convertUserDefinedFiltersToMatchExpression.ts:198-204 | An OR filter compiles to the same expression whatever came before it |
| FilterCompiler.LaterOrDropsFilter | src/datastore/mongodb/convertUserDefinedFiltersToMatchExpression.ts:198-204 | A concrete list that passes validation, with an OR behind another filter, accepts a document that the other filter rejects |
| FilterCompiler.CompileDone | src/datastore/mongodb/convertUserDefinedFiltersToMatchExpression.ts:206-235 | Compilation throws if and only if some filter that is not skipped, at any depth, lacks its field name or has a pattern that the RegExp constructor refuses |
| SubEntityClass.FoundByOneOrTwoNames | src/utils/type/findSubEntityClass.ts:4-28 | A class is found only for a path of one property name, or of two with a dot between |
| SubEntityClass.FoundExactly | src/utils/type/findSubEntityClass.ts:4-28 | Class c is found if and only if the way that the search keeps ends in a property declared with c: at each level the last property at the path, or else the first array property of entities below which some way leads on |
| SubEntityClass.OneNameExactly | src/utils/type/findSubEntityClass.ts:4-28 | For a path of one name class c is found if and only if the entity itself declares the property of that name with the declared class c |
| SubEntityClass.TwoNamesLead | src/utils/type/findSubEntityClass.ts:4-28 | For a path of two names the class found is one with which some array of entities called by the first name declares the second name |
| SubEntityClass.FirstArrayIsFound | src/utils/type/findSubEntityClass.ts:4-28 | And if that array is the first array of entities of the entity itself, that class is found |
| SubEntityClass.NoClassForRootOrDeepPaths | src/utils/type/findSubEntityClass.ts:4-28 | No class is found for the path of the entity itself, for all paths, or for paths of three names and more, so no filter with such a path is checked for read denial |
| FilterCompiler.AlternativesAreNotSkipped | src/types/userdefinedfilters/OrFilter.ts:5-71 | The alternatives that validation lets through have no path and are never skipped as read-denied |
| FilterCompiler.RefusesNothingExactly | src/datastore/mongodb/convertUserDefinedFiltersToMatchExpression.ts:212-240 | Exactly the absent operator, OR, NOT IN with an empty list and NOT LIKE with a pattern of no text hold for every value |
| FilterCompiler.OpenAlternativeExactly | src/datastore/mongodb/convertUserDefinedFiltersToMatchExpression.ts:198-204 | Exactly the alternatives with such an operator accept every document when compiled, and they make their OR accept every document |
| FilterCompiler.EmptyAlternativeExactly | src/datastore/mongodb/convertUserDefinedFiltersToMatchExpression.ts:210-245 | An alternative compiles to an expression without conditions if and only if it has no operator or the operator OR |
| FilterCompiler.SpreadAccepts | src/datastore/mongodb/convertMongoDbQueriesToMatchExpression.ts:4-9 | Spreading one expression over another keeps all of the later and what it does not overwrite of the earlier |
| FilterCompiler.LastQueryWins | src/datastore/mongodb/convertMongoDbQueriesToMatchExpression.ts:4-9 | Of several expressions with a condition on a field the last one counts |
| FilterCompiler.LastAlternativesWin | src/datastore/mongodb/convertMongoDbQueriesToMatchExpression.ts:4-9 | And so for alternatives |
| FilterCompiler.MergedComesFromQueries | src/datastore/mongodb/convertMongoDbQueriesToMatchExpression.ts:4-9 | The merged expression has no other conditions |
| FilterCompiler.MergeIsConjunction | src/datastore/mongodb/convertMongoDbQueriesToMatchExpression.ts:3-10 | Over pairwise disjoint keys the merged expression accepts what all parts accept |
| FilterCompiler.QueryMeansEveryFilter | src/datastore/MongoDbDataStore.ts:1399-1406 | User-defined filters and MongoDB queries together mean the conjunction of all of them, under the side conditions of both |
| SelectionParser.GetFields | src/graphql/getFieldsFromGraphQlOrJson.ts:1-40 | The loop over the lines computes the recursive description of the parse |
| SelectionParser.PopIsPop | src/graphql/getFieldsFromGraphQlOrJson.ts:21-22 | Cutting the path text behind its last but one dot removes exactly the last name of the dotted stack |
| SelectionParser.PopPathExactly | src/graphql/getFieldsFromGraphQlOrJson.ts:21-22 | For any path text, cutting leaves what ends in the last dot before the last character, or nothing |
| SelectionParser.UnquotedNameIsUndefined | src/graphql/getFieldsFromGraphQlOrJson.ts:24-32 | A JSON member whose name is not quoted is selected under the name undefined |
| SelectionParser.OpenLine | src/graphql/getFieldsFromGraphQlOrJson.ts:14-19 | The opening line of a group is recognised in both layouts and yields its name |
| SelectionParser.JsonField | src/graphql/getFieldsFromGraphQlOrJson.ts:24-32 | A JSON member line yields the quoted name, and counts as selected exactly when its value is true |
| SelectionParser.StepMirrorsMove | src/graphql/getFieldsFromGraphQlOrJson.ts:14-36 | One line moves the path text as a stack machine moves its stack |
| SelectionParser.ParserMirrorsMachine | src/graphql/getFieldsFromGraphQlOrJson.ts:7-37 | After every line the path text is the dotted stack of open ancestors and the fields are the paths found |
| SelectionParser.MachineFindsPaths | src/graphql/getFieldsFromGraphQlOrJson.ts:13-37 | On a print of a selection tree the machine finds its paths in order and returns to the stack it started from |
| SelectionParser.MachineFollows | src/graphql/getFieldsFromGraphQlOrJson.ts:20-22 | What the machine finds on JSON prints with empty objects, including when a path goes wrong |
| SelectionParser.FieldsOfText | src/graphql/getFieldsFromGraphQlOrJson.ts:6-12 | Blank lines and the first and last line do not matter |
| SelectionParser.BlankLineDoesNotMatter | src/graphql/getFieldsFromGraphQlOrJson.ts:10-11 | Leaving out a blank line anywhere in a text of at least two lines changes no field |
| SelectionParser.PrintLaysOut | src/graphql/getFieldsFromGraphQlOrJson.ts:10-12 | The one-item-per-line print between braces is a text the following theorems speak of |
| SelectionParser.GraphQlParses | src/graphql/getFieldsFromGraphQlOrJson.ts:6-39 | Parsing the GraphQL print of any selection tree gives exactly its leaf paths in order |
| SelectionParser.AstrayExactly | src/graphql/getFieldsFromGraphQlOrJson.ts:13-37 | The machine loses a path if and only if inside some root-level group an empty object comes before a selected field, at whatever depths |
| SelectionParser.JsonParses | src/graphql/getFieldsFromGraphQlOrJson.ts:6-39 | Parsing the JSON print of any tree gives exactly the paths of the true leaves if and only if inside no root-level group an empty object comes before a true leaf |
| SelectionParser.OneLineJsonParses | src/graphql/getFieldsFromGraphQlOrJson.ts:2-39 | The same for JSON in one line, which the JSON library lays out first |
| SelectionParser.SameFieldsInBothSyntaxes | src/graphql/getFieldsFromGraphQlOrJson.ts:1-40 | GraphQL and JSON prints of one tree give the same fields if and only if inside no root-level group an empty object comes before a true leaf |
| SelectionParser.EmptyGroupCutsPath | src/graphql/getFieldsFromGraphQlOrJson.ts:20-22 | Concrete JSON whose only selected field is a.c and for which the parser returns c |
| Projection.GetProjection | src/datastore/mongodb/getProjection.ts:18-32 | For lists a field is projected if and only if it is included, or a default field if none are included, and is not excluded |
| Projection.ProjectedExactly | src/datastore/mongodb/getProjection.ts:7-33 | However either selection is written, as a list, as GraphQL or as JSON whose paths are not cut, a field is projected if and only if it is included, or a default field if nothing is, and is not excluded |
| Projection.SameProjectionInEverySyntax | src/datastore/mongodb/getProjection.ts:7-33 | A selection gives the same projection as a list of paths, as GraphQL text and as JSON text, for inclusion and for exclusion, whatever the other list is |
| Text.SplitJoin | src/graphql/getFieldsFromGraphQlOrJson.ts:6 | Splitting at a separator undoes joining with it |
| Text.EndsWithExactly | src/graphql/getFieldsFromGraphQlOrJson.ts:14-20 | A text ends with a suffix if and only if it is some text followed by it |
| Text.SpacesByNumber | src/errors/createBackkErrorFromError.ts:16 | The characters that trimming removes |
| Text.JoinSplit | src/errors/createBackkErrorFromError.ts:14-16 | Joining with a separator undoes splitting at it |
| ErrorCodec.ParsePrinted | src/errors/createBackkErrorFromError.ts:2 | Parsing a printed number gives it back |
| ErrorCodec.LongNumber | src/errors/createBackkErrorFromError.ts:2 | The first three characters of a number that prints longer never parse to it |
| ErrorCodec.TextOfError | src/errors/createBackkErrorFromErrorCodeMessageAndStatus.ts:8-16 | The text of an error: status, prefix, code and message, with the word undefined for an absent code |
| ErrorCodec.UndefinedCodeComesBackAsText | src/errors/createBackkErrorFromError.ts:17-21 | An absent code comes back as the word undefined |
| ErrorCodec.UnnumberedText | src/errors/createBackkErrorFromError.ts:5-15 | A text without a number in front becomes an internal server error with the whole text as its message |
| ErrorCodec.TextWithoutCode | src/errors/createBackkErrorFromError.ts:2-17 | A text with a number but without the prefix keeps both and has no code |
| ErrorCodec.PrefixAlone | src/errors/createBackkErrorFromError.ts:13-17 | With nothing but the prefix behind the status the code is empty |
| ErrorCodec.ParsesAfterStatus | src/errors/createBackkErrorFromError.ts:2-17 | If the status prints as three characters, status and code are recovered up to the first colon of the code, and the trimmed message if there is none |
| ErrorCodec.ShortStatusLosesCode | src/errors/createBackkErrorFromError.ts:3-17 | A status that prints shorter never survives |
| ErrorCodec.RoundTrip | src/errors/createBackkErrorFromErrorCodeMessageAndStatus.ts:8-16 | Printing then parsing gives the error back if and only if the status prints as three characters, the code is defined and has no colon, and the message is trimmed |
| ErrorCodec.ThreeDigitStatuses | src/errors/createBackkErrorFromErrorCodeMessageAndStatus.ts:8-16 | Among the non-negative statuses these are 100 to 999 |
| Bytes.RoundTrip | src/crypt/encrypt.ts:39 | Decoding UTF-8 undoes encoding it, for every text |
| Bytes.CutCharacter | src/crypt/decrypt.ts:15 | A character cut in two decodes to one replacement character and one more for each byte behind the cut |
| Bytes.DecodeHalves | src/crypt/decrypt.ts:15 | Decoding two halves separately gives the text back if and only if the cut is between two characters |
| Bytes.Base64RoundTrip | src/crypt/decrypt.ts:12 | Reading base64 undoes writing it, for every byte sequence |
| Bytes.UrlTextReadsAlike | src/crypt/decrypt.ts:12 | The URL-safe form of a text is read as the text is |
| Bytes.OtherCharactersAreSkipped | src/crypt/decrypt.ts:12 | Reading base64 skips every character outside the alphabets |
| Bytes.Base64Length | src/crypt/encrypt.ts:41 | Base64 has four letters for every three bytes begun |
| Envelope.Opens | src/crypt/decrypt.ts:12-14 | The first 16 bytes of an envelope are its vector and the rest opens to the bytes that were sealed |
| Envelope.DecryptShortens | src/crypt/decrypt.ts:12-15 | What is decrypted is shorter than the text it is decrypted from, whatever that text is |
| Envelope.UsableKeyExactly | src/crypt/encrypt.ts:6-36 | A key can be used if and only if it has at least 32 characters, the first 32 are ASCII, and in production it has a small letter, a capital letter and a digit |
| Envelope.KeyErrorExactly | src/crypt/encrypt.ts:9-32 | Which error a missing, short or weak key gives |
| Envelope.FixedIvLength | src/crypt/encrypt.ts:34-36 | For every usable key the fixed vector has 16 bytes |
| Envelope.EnvelopeExactly | src/crypt/encrypt.ts:34-41 | An envelope is the random vector, or the first 16 characters of the key, followed by what the cipher makes of the UTF-8 form of the text with that vector and the first 32 characters of the key |
| Envelope.WeakKeysDecrypt | src/crypt/decrypt.ts:3-14 | For decryption 32 characters are enough, of which the first 32 are ASCII, in production too |
| Envelope.DecryptEncrypt | src/crypt/decrypt.ts:3-16 | Encrypting and decrypting never fails, and gives the text back if and only if no character lies across the last multiple of 16 bytes |
| Envelope.AsciiSurvives | src/crypt/decrypt.ts:3-16 | In particular every ASCII text survives |
| Envelope.AccentedTextIsDamaged | src/crypt/decrypt.ts:15 | A concrete text that is damaged |
| Envelope.SealIsInjective | src/crypt/encrypt.ts:38-41 | Two envelopes under one key are equal if and only if vectors and texts are equal |
| Envelope.EncryptedLength | src/crypt/encrypt.ts:38-41 | The length of an envelope in closed form: 4*ceil((16 + 16*(floor(n/16) + 1))/3) for n bytes of text |
| Envelope.EnvelopeLengthMonotone | src/validation/getMaxLengthValidationConstraint.ts:6-17 | It is monotone, and grows exactly when a block is filled |
| Envelope.FitsColumn | src/validation/getMaxLengthValidationConstraint.ts:6-17 | A text fits the column computed for length n if and only if its UTF-8 form fills no more blocks than n bytes do; the column of a property that is not encrypted has length n |
| Envelope.AsciiFitsColumn | src/validation/getMaxLengthValidationConstraint.ts:6-17 | Every ASCII text within the declared length fits |
| CharacterRuns.ScanEqual | src/validation/hasAtMostRepeatingOrConsecutiveCharacters.ts:12-34 | True if and only if no run of one character is longer than the limit (and than one) |
| CharacterRuns.ScanAscending | src/validation/hasAtMostRepeatingOrConsecutiveCharacters.ts:36-59 | True if and only if no run of codes ascending by one is longer than the limit (and than one) |
| CharacterRuns.ScanKeyboard | src/validation/hasAtMostRepeatingOrConsecutiveCharacters.ts:61-74 | True if and only if no part longer than the limit lies on the keyboard in order |
| CharacterRuns.ContainsExactly | src/validation/hasAtMostRepeatingOrConsecutiveCharacters.ts:66-68 | A part is found if and only if the text is something, the part and something |
| CharacterRuns.HasAtMostRepeatingOrConsecutiveCharacters | src/validation/hasAtMostRepeatingOrConsecutiveCharacters.ts:1-77 | Limits over 26 are refused, texts over 26 characters accepted, and otherwise the answer is whether the lower-cased text has none of the three runs |
| CharacterRuns.LimitsAreMonotone | src/validation/hasAtMostRepeatingOrConsecutiveCharacters.ts:10-76 | A higher limit never refuses what a lower one accepts |
| CharacterRuns.PartsWithinLimits | src/validation/hasAtMostRepeatingOrConsecutiveCharacters.ts:10-76 | Every part of an accepted text is accepted |
| CharacterRuns.LongTextsPass | src/crypt/encrypt.ts:27 | Every encryption key that is long enough passes the run check |
| EncryptedSearch.EncryptedExactly | src/crypt/shouldEncryptValue.ts:149-162 | Which fields are encrypted: those not marked otherwise whose name ends in Ip, or that are marked, or whose lower-cased name contains one of the parts or is one of the wholes |
| EncryptedSearch.FixedVectorExactly | src/crypt/shouldUseRandomInitializationVector.ts:1-8 | The fixed vector is for the fields whose lower-cased name is user or contains username or user_name |
| EncryptedSearch.FixedVectorFieldsAreEncrypted | src/crypt/shouldEncryptValue.ts:149-162 | A user-name field, which gets the fixed vector, is encrypted if and only if it is not marked otherwise |
| EncryptedSearch.MongoDbFilter.constructor | src/datastore/mongodb/MongoDbFilter.ts:10-12 | The filter starts empty, with its path |
| EncryptedSearch.MongoDbFilter.Fill | src/datastore/mongodb/MongoDbFilter.ts:14-22 | Afterwards the query holds exactly the given names, each with its final value; it throws if and only if some of the values is refused |
| EncryptedSearch.RefusedExactly | src/datastore/mongodb/MongoDbFilter.ts:17-19 | A value is refused if and only if the field is a user-name field and no bytes can be taken from the value or the key is not usable |
| EncryptedSearch.SearchFindsExactlyTheBytes | src/datastore/mongodb/MongoDbFilter.ts:14-22 | On a user-name field the filter value equals the stored value of a text if and only if the bytes taken from the filter are those of the text, so an array of numbers finds the text it spells |
| EncryptedSearch.SearchFindsExactlyTheText | src/datastore/mongodb/MongoDbFilter.ts:14-22 | On a user-name field the filter value equals the stored value if and only if the texts are equal, for all texts |
| EncryptedSearch.StoredExactly | src/crypt/hashAndEncryptEntity.ts:71-76 | In any other encrypted field two stored values are equal if and only if texts and vectors are; a field that is not encrypted is stored as it is |
| EncryptedSearch.UnencryptedUserNameIsNotFound | src/datastore/mongodb/MongoDbFilter.ts:17-19 | A user-name field marked as not encrypted is never found by its own text |
| EntityCrypto.EncryptString | src/crypt/hashAndEncryptEntity.ts:75 | Encrypting succeeds exactly with a usable key, under some 16-byte vector or the fixed one |
| EntityCrypto.SealScalar | src/crypt/hashAndEncryptEntity.ts:62-76 | What a scalar field becomes, and exactly when it throws |
| EntityCrypto.SealItems | src/crypt/hashAndEncryptEntity.ts:28-50 | What an array of scalars becomes element by element, nulls kept, and exactly when it throws |
| EntityCrypto.SealValue | src/crypt/hashAndEncryptEntity.ts:18-76 | The dispatch over the shapes of a value, with the objects below it encrypted in place |
| EntityCrypto.SealProperty | src/crypt/hashAndEncryptEntity.ts:17-77 | Handling one property changes that property and what is below it and nothing else |
| EntityCrypto.SealObjects | src/crypt/hashAndEncryptEntity.ts:21-27 | All objects of an array are encrypted with the class of their property |
| EntityCrypto.HashOrEncryptEntityValues | src/crypt/hashAndEncryptEntity.ts:12-78 | The walk over a heap of nested entities succeeds exactly on encryptable ones, and then leaves the same objects with every field hashed, encrypted or kept as its class says |
| EntityCrypto.OpenScalar | src/crypt/decryptEntities.ts:54-63 | What a scalar field is decrypted to, and exactly when it throws |
| EntityCrypto.OpenArray | src/crypt/decryptEntities.ts:34-43 | An encrypted array is decrypted element by element; it throws exactly if some element is no text that opens |
| EntityCrypto.OpenProp | src/crypt/decryptEntities.ts:18-63 | The dispatch over the shapes of a value, with untyped and closed many-to-many properties skipped |
| EntityCrypto.OpenProperty | src/crypt/decryptEntities.ts:17-64 | Handling one property changes that property and what is below it and nothing else |
| EntityCrypto.DecryptEntityValues | src/crypt/decryptEntities.ts:7-65 | The walk over a heap of nested entities succeeds exactly on openable ones and leaves the decrypted tree on the same objects |
| EntityCrypto.DecryptEntities | src/crypt/decryptEntities.ts:67-74 | All entities of a list are decrypted |
| EntityCrypto.SealedByDeclaredClass | src/crypt/hashAndEncryptEntity.ts:18-76 | At any depth, every text of what encryption leaves behind is an envelope of the original, or the original, as the class says that the declared types of the properties on the way to it give; what is no text is kept |
| EntityCrypto.EncryptableExactly | src/crypt/hashAndEncryptEntity.ts:18-76 | Encryption succeeds if and only if, in every object at any depth, objects and empty arrays are in properties with a declared type, only texts are in hashed or encrypted fields, and the key can be used where a text is encrypted |
| EntityCrypto.OpenedByDeclaredClass | src/crypt/decryptEntities.ts:17-64 | At any depth that decryption goes to, every encrypted text is decrypted as the class says that the declared types on the way to it give, and everything else is kept |
| EntityCrypto.OpenableExactly | src/crypt/decryptEntities.ts:17-64 | Decryption succeeds if and only if, in every object it goes to, each encrypted value is null, absent or a text that decrypts, and no object or empty array is an encrypted `_id` |
| EntityCrypto.OpenSealedString | src/crypt/decryptEntities.ts:62 | Any envelope left by encryption opens, to the same text if and only if it is aligned |
| EntityCrypto.OpenSealed | src/crypt/decryptEntities.ts:7-65 | For any nested entity and anything encryption can leave behind of it: decryption never throws, and restores every field that is not hashed if and only if no encrypted text has a character across its last multiple of 16 bytes |
| EntityCrypto.HashSurvivesReading | src/crypt/decryptEntities.ts:54-63 | When an entity is read back, the hash in a field is still there if and only if the field is not encrypted as well |
| EntityCrypto.SealedOpensExactly | src/crypt/decryptEntities.ts:17-64 | If no text is in a field that is both hashed and encrypted: what encryption leaves of an entity can be decrypted if and only if, where decryption goes, no encrypted array holds a null and no encrypted `_id` is an object or an empty array |
| EntityCrypto.NullInArrayBlocksReading | src/crypt/decryptEntities.ts:40-42 | An encrypted array with a null is saved but the entity cannot be decrypted again |
| RemoveSubEntities.WithoutRemoved | src/datastore/mongodb/removeSubEntities.ts:7-9 | The filter keeps the identities that are not to be removed, in order |
| RemoveSubEntities.RemoveBelow | src/datastore/mongodb/removeSubEntities.ts:12-22 | The walk goes into the objects of the value as it was before filtering, removed ones included |
| RemoveSubEntities.RemoveFromProperty | src/datastore/mongodb/removeSubEntities.ts:2-23 | Handling one property changes that property and what is below it and nothing else |
| RemoveSubEntities.RemoveFromElements | src/datastore/mongodb/removeSubEntities.ts:18 | Every element of an array is walked |
| RemoveSubEntities.Remove | src/datastore/mongodb/removeSubEntities.ts:1-24 | In place, on the heap: the entity afterwards is the pruned tree on the same objects; it throws exactly if some array starts with null |
| RemoveSubEntities.OthersKeepTheirPlace | src/datastore/mongodb/removeSubEntities.ts:7-9 | Exactly the elements that are not removed stay, in their order |
| RemoveSubEntities.NoArrayHoldsRemoved | src/datastore/mongodb/removeSubEntities.ts:1-24 | Afterwards no array at any depth holds a removed identity |
| RemoveSubEntities.UnchangedWithoutRemoved | src/datastore/mongodb/removeSubEntities.ts:1-24 | Nothing changes if and only if no array held one of the identities |
| RemoveSubEntities.RemovingIsIdempotent | src/datastore/mongodb/removeSubEntities.ts:1-24 | Removing twice is removing once |
| RemoveSubEntities.SingleSubEntityStays | src/datastore/mongodb/removeSubEntities.ts:12-21 | A sub-entity that is itself the value of a property stays |
| PageTokens.FindToken | src/datastore/utils/tryEnsurePreviousOrNextPageIsRequested.ts:14-16 | The first token with the path, if there is one |
| PageTokens.ErrorNamesFirstDisallowed | src/datastore/utils/tryEnsurePreviousOrNextPageIsRequested.ts:13-51 | A request passes exactly when each page is the page of its token or next to it; otherwise the error is that of the first that is not |
| PageTokens.AcceptedPagesAreNear | src/datastore/utils/tryEnsurePreviousOrNextPageIsRequested.ts:28-44 | Each page of an accepted request is at most one away from the page of one of its tokens |
| PageTokens.StepIssues | src/datastore/utils/createCurrentPageTokens.ts:5-15 | After a request exactly the pages issued before and, if it was accepted, those it fetched are issued |
| PageTokens.StepIsNear | src/datastore/utils/tryEnsurePreviousOrNextPageIsRequested.ts:28-44 | A client without forged tokens gets only pages next to pages it already has |
| PageTokens.IssuedPagesStayContiguous | src/datastore/utils/tryEnsurePreviousOrNextPageIsRequested.ts:13-51 | Over every run of requests with replayed tokens the issued pages stay one contiguous range |
| PageTokens.AcceptedCountExactly | src/datastore/utils/tryEnsurePreviousOrNextPageIsRequested.ts:13-51 | The count in the following statements is the number of accepted requests |
| PageTokens.OnePageAtATime | src/datastore/utils/tryEnsurePreviousOrNextPageIsRequested.ts:13-51 | Each accepted request widens the range by at most one page on each side |
| PageTokens.NoPageIsSkipped | src/datastore/utils/tryEnsurePreviousOrNextPageIsRequested.ts:13-51 | From page 1, having page p takes at least p - 1 accepted requests, and every page between was fetched |
| PageTokens.ValidTokenExactly | src/types/postqueryoperations/CurrentPageToken.ts:16-19 | The field of a token lets through 1 to 64 letters and digits |
| PageTokens.ValidPathExactly | src/types/postqueryoperations/CurrentPageToken.ts:11-14 | The field of a path lets through nothing, everything, or a name with dots |
| PageTokens.ValidPaginationExactly | src/types/postqueryoperations/Pagination.ts:18-26 | Page number and page size are between 1 and a hundred |
| PageTokens.IssuedTokensAreInvalid | src/types/postqueryoperations/CurrentPageToken.ts:16-19 | No token that the service hands out, the base64 of 32 bytes, is an alphanumeric text |
| PageTokens.ValidRequestsFetchNothing | src/validation/tryValidateServiceFunctionArgument.ts:55-63 | Of the requests that pass the validation of arguments exactly those without paginations are accepted |
| PageTokens.ValidRunsIssueNothing | src/validation/tryValidateServiceFunctionArgument.ts:55-63 | A run of requests that pass validation fetches no page and hands out no token |
| PageTokens.WalkReachesThePage | src/datastore/utils/createCurrentPageTokens.ts:5-15 | And for the data store p - 1 requests are enough; they pass validation if and only if p is 1 or the path is valid, p is at most 100 and their tokens are alphanumeric |
| PageTokens.NoTokenWithoutToken | src/datastore/utils/tryEnsurePreviousOrNextPageIsRequested.ts:18-23 | A client without a token is never given one |
| PageTokens.TokensAreNotBoundToPaths | src/datastore/utils/createCurrentPageTokens.ts:6-13 | For the data store a token for one sub-entity path admits to the next page of another path of which no page was fetched; that request passes validation if and only if path, token and page do |
| Pages.FindPath | src/datastore/mongodb/performPostQueryOperations.ts:50-54 | The first pagination with the path |
| Pages.RootPaginationExactly | src/datastore/mongodb/performPostQueryOperations.ts:50-54 | The first pagination without a path decides, otherwise the first one for all paths, and without either there is none |
| Pages.PerformPagination | src/datastore/mongodb/performPostQueryOperations.ts:44-58 | Skip and limit make the cursor yield exactly the page of the root pagination, all rows if there is none, and the first 50 rows without paginations |
| Pages.FirstPagesArePrefix | src/datastore/mongodb/performPostQueryOperations.ts:56-58 | The first pages together are a prefix of the rows |
| Pages.PagesCoverRows | src/datastore/mongodb/performPostQueryOperations.ts:56-58 | They are all rows, in order, if and only if at least ceil(n/s) pages are read |
| Pages.RowIsOnOnePage | src/datastore/mongodb/performPostQueryOperations.ts:56-58 | Row i is on page i/s + 1 at place i mod s, and on no other page |
| Pages.ValidPagesReachExactly | src/types/postqueryoperations/Pagination.ts:18-26 | With pages of a given size a row is on a page that passes validation if and only if the size is at most a hundred and the row is among the first hundred times the size |
| Pages.PagesEndAtTenThousand | src/types/postqueryoperations/Pagination.ts:18-26 | Rows behind the ten-thousandth are on no page that passes validation |
| Pages.PaginateRows | src/datastore/mongodb/paginateSubEntities.ts:22-44 | Every row gets the page of its sub-entities, with their number on it if asked for, and nothing else changes |
| Pages.SubPageIsPage | src/datastore/mongodb/paginateSubEntities.ts:26-35 | The page of sub-entities is the page of rows if and only if it is not the first or there is no second |
| Pages.LaterSubEntitiesComeTwice | src/datastore/mongodb/paginateSubEntities.ts:26-35 | All pages of sub-entities together are all sub-entities followed once more by those behind the first page |
| Pages.SubPagesCoverOnlyShortLists | src/datastore/mongodb/paginateSubEntities.ts:26-35 | They partition the sub-entities if and only if these fit on one page |
| Pages.CountIsOfThePage | src/datastore/mongodb/paginateSubEntities.ts:37-42 | The requested count is that of the page, and it is the number of all sub-entities if and only if the page is the first |
| MultiCall.Execution.constructor | src/execution/executeMultipleServiceFunctions.ts:151-152 | At the beginning nothing has been answered |
| MultiCall.Execution.Record | src/execution/executeMultipleServiceFunctions.ts:108-117 | An answer is recorded under its identifier, sets the error exactly if its status is at least 300, and adds its status |
| MultiCall.Execution.ExecuteSequentially | src/execution/executeMultipleServiceFunctions.ts:33-119 | One after another, exactly the calls up to and including the first failure are answered, in order |
| MultiCall.Execution.StartAll | src/execution/executeMultipleServiceFunctions.ts:33-95 | In parallel all calls up to the first denied one are started, and only that one is answered at once |
| MultiCall.Execution.AnswerAll | src/execution/executeMultipleServiceFunctions.ts:96-119 | Pending calls are all answered, in any order |
| MultiCall.Execution.ExecuteInParallel | src/execution/executeMultipleServiceFunctions.ts:33-119 | In every order of answers exactly the calls up to and including the first denied one are answered |
| MultiCall.AnsweredOneToOne | src/execution/executeMultipleServiceFunctions.ts:108-117 | Responses and status codes correspond to the answered calls one to one, with status 400 for a denied call, and an error is recorded exactly if one was denied or answered with status 300 or higher |
| MultiCall.ReportedErrorMeansFailedCall | src/execution/executeMultipleServiceFunctions.ts:204 | The reported status is at least 300 if and only if an answered call failed |
| MultiCall.OrderDoesNotMatter | src/execution/executeMultipleServiceFunctions.ts:108-117 | The order of answers changes neither the responses nor the reported status nor whether there was an error |
| MultiCall.SequentialReportsFirstFailure | src/execution/executeMultipleServiceFunctions.ts:204 | One after another, the reported status is that of the first failing call |
| MultiCall.LocalCallsAreNotSkipped | src/execution/executeMultipleServiceFunctions.ts:39-41 | In parallel a call is skipped if and only if an earlier one was denied; failing local calls skip nothing |
| ParentSearch.FirstMatch | src/metadata/findParentEntityAndPropertyNameForSubEntity.ts:13-21 | The first property with the sub-entity type or an entity stored in its table |
| ParentSearch.FoundIsDeclared | src/metadata/findParentEntityAndPropertyNameForSubEntity.ts:23-39 | The returned class is reached by property edges and its first matching property is the returned one |
| ParentSearch.ReachableIsFound | src/metadata/findParentEntityAndPropertyNameForSubEntity.ts:27-39 | If any reachable class declares such a property, something is found |
| ParentSearch.FoundIffReachable | src/metadata/findParentEntityAndPropertyNameForSubEntity.ts:6-40 | On an acyclic type graph the search terminates and finds something if and only if the sub-entity type is reachable by at least one property edge |
| ParentSearch.FindsFirstHolder | src/metadata/findParentEntityAndPropertyNameForSubEntity.ts:23-38 | The result is the first of all holders in depth-first order, each class before those it refers to |

## Left out

- CronTable: a rollback or a start-up that fails, exceptions other than failed answers, and the MongoDB form of `executeInsideTransaction` for a row that exists, which does not abort when an error is returned and writes the row outside the session. For a row that is missing, only MongoDB's answer is modelled, and a job that fails, or whose commit fails, is not counted as run. One transaction is one atomic step; the continuation-local flags are not modelled.
- CronTable.SqlJobRunsExactly: assumes that the name read is not the class and function name of some other job; `JobRunsExactlyIfItsNameIsWritten` says what holds without that.
- CronTable.ScheduleStore.UpdateByFilters: of the pre-hooks of an update only the window check is modelled, with the answer 400 that hooks without an error of their own give; lists of hooks and their conditions are not. The read, the pre-hook and the write see one clock value, although the hook reads the clock a little later than the time stamp.
- CronTable.ScheduleStore.constructor: the table is empty before the first start-up; rows left by earlier versions of the program are not modelled.
- LikeRegExp: regular expressions with groups, alternatives or counted repetitions are not read. They arise only where a bracket group that opens with a closing bracket also contains one of ^ $ * + ? ( ) { [ or a vertical bar, as in `SyntaxInEmptyGroupIsNotEscaped`; whether such a source text is refused and what it matches is a parameter, and the filter theorems take that for the meaning of the pattern. A group that opens with a closing bracket is taken to describe no character. The source's expressions read code units and the model characters, which is the same for characters below 0x10000. The theorems are about the expression as JavaScript reads it; the database evaluates it with an engine of its own, in which `$` and `[]` differ. The case-sensitive variant, which no caller asks for, is left out.
- LikeRegExp.RefusedExactly: patterns with such syntax in a group that opens with a closing bracket are not covered; whether they are refused is the parameter. `KeepsMeaningExactly` speaks of all patterns.
- LikeRegExp.ReadGroup: groups that open with a closing bracket are the subject of the lemma `ReadEmptyGroup`.
- FilterCompiler: field functions, which become `$where` source text for the database, and the decorators that say which field of a sub-entity class is read-denied, which are a parameter. Values are null, numbers, texts and booleans; conditions on arrays are not modelled, nor LIKE with a value that is not text.
- SelectionParser: laying out one-line JSON is the library's work and a parameter; names with dots, quotes, colons, commas, braces or spaces are outside the theorems about trees.
- ErrorCodec: hexadecimal prefixes, which the platform's number parser accepts; the stack trace and the logging. An absent status prints as 500, so errors here always have one.
- Bytes: characters are Unicode code points, not UTF-16 units; the model differs from the platform where lone surrogates occur.
- Text: lengths and positions are those of characters; the platform counts code units, which is the same for characters below 0x10000.
- Envelope: AES itself, tampered envelopes, and how a maximum length is found among the validations of a property.
- EncryptedSearch: the cache of decisions per class and property name, and the word lists, which are a parameter that contains the user-name words. An array is given by its numbers; elements that are no whole numbers, and buffers and array-like objects, are not told apart from it.
- EncryptedSearch.MongoDbFilter.constructor: the source's constructor also runs the loop that is `Fill` here, because a constructor has no result to say that it threw.
- EntityObjects: arrays are part of a property's value and not objects of their own, so two properties sharing one array are not modelled; neither are arrays that mix objects with scalars or nulls, nested arrays, dates, cyclic or shared objects, and the inside of object identifiers.
- EntityCrypto.HashOrEncryptEntityValues: the parallel walk is modelled in one order, and nothing is said about what a walk that throws leaves behind. Declared types that name no entity class are not modelled.
- RemoveSubEntities: sub-entities to remove are objects; the comparison also handles scalars but no caller passes them knowingly.
- PageTokens: guessing a token, two page numbers with one code, a missing key, and argument classes other than the shipped ones.
- Pages: sorting and projecting; rows are the same list for every page. Sub-entity paths deeper than one level, which get a doubled dot, and the choice between paginations for them.
- MultiCall: allowed remote calls, Mustache rendering of arguments, validation of the calls, and the transaction around them, which never aborts because a null error is always returned.
- ParentSearch: type graphs with cycles, on which the search does not end, and capital letters beyond ASCII.
- Optimistic versions in updateEntity: the check looks for the version on the wrapper of the entity and is not reached as written.
- One-off jobs (src/scheduling/scheduleCronJob.ts): the result pair is tested for truthiness, so nothing about the job follows from it.
- Authorization, caching, Kafka, HTTP, tracing, metrics, logging, and the generators for clients, OpenAPI and Postman: branch tables and plumbing that would add only easy members.
