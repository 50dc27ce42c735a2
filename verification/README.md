# Verified model of the SubQuery Starknet indexer's own logic

This project models the parts of `packages/node` that the indexer computes itself, and proves
what they promise, in Dafny 4.11:

* **The finalized-head tracker.** `StarknetNode` is the remote chain: a height and a frontier (the
  highest block accepted on L1) that may both grow before every request, and requests that may
  fail. `FinalizedBlocks.FinalizedBlockService` is the class with its cached block, proved for
  calls made one after the other. `FinalizedInterleaving` is the same code cut at every `await`:
  a run is any sequence of events of any number of calls and of the chain. A request is answered
  by one event and its answer delivered by a later one, so answers may be overtaken on their way.
* **The calldata decoder.** `Calldata` has the two decoders as loops, proved against an index-level
  description of each wire layout; `CalldataLaws` has an encoder for each layout, the round trips
  and the exact choice between the layouts. JavaScript numbers are modelled with their 53
  significant bits (`Doubles`), so no length is excluded up front.
* **The filters and the decode cache.** `Filters` gives the verdict on a transaction or log,
  `FilterLaws` how it reacts to respelled and narrowed filters, and `MatchLaws` what matches, field
  by field and in terms of numbers, and that the order of calls, words, topics and keys is
  irrelevant. `Transactions` is the transaction object whose `decodedCalls` field is written while
  filters and parsers look at it.
* **The dictionary queries.** `DataSources` groups handlers, `Dictionary` compiles groups into
  queries, `Queries` says which rows a query selects. `DictionaryLaws` gives the compiled list a
  meaning that mentions neither lists nor groups nor order, and `Coverage` relates it to the
  filters: nothing a handler accepts is missed, with the exact conditions under which that holds.
* **Block dispatch.** `Dispatch` fetches a block and walks it past every datasource while parsing
  rewrites the transactions and their logs; `DispatchLaws` says what the trace of visits looks
  like. A log in the trace has its address, keys and data; only its decoded arguments are dropped.
  Each Call handler is given exactly the transactions that its filter accepts untouched.

Texts (addresses, selectors, topics, calldata words) are a datatype that separates a felt from its
spelling (`Texts`); `hexEq` compares felts. The Starknet hash is a parameter, so every statement
holds for every hash function; where a statement needs the hash to be free of accidents, it says
so. Requests, handlers, which ABI files load and the decoded arguments are parameters or
arbitrary choices.

Where the code and its comments differ the model follows the code. The comment on the backward
jump speaks of steps of 1000 blocks; the first jump leaves from -1 and so always lands on block 0.

Results that show a limit of the code, each with the exact condition:

* Overlapping `getFinalizedBlock` calls can lower the cached block and can return a block below
  the one that was final when they started. Neither can happen exactly when at most one call is
  in flight (`NeverRegressesIffSingleFlight`, `ReturnsFreshIffSingleFlight`).
* A call list in the newer calldata layout can be read in the legacy layout. Any list comes back
  exactly when its words are not recognised as legacy, or the legacy headers happen to spell the
  same calls (`NewLayoutComesBackIff`; `LayoutsMayCoincide` shows two calls of which they do). One
  call comes back exactly when its second argument is not the number its first one reads as.
* A legacy list is recognised exactly when its declared total survives floating-point addition, as
  every total below 2^53 does (`LegacyRoundTrip`); 2^53 and 1 do not (`RoundedSumLosesOne`).
* Two spellings of one number make the same function filter exactly when they are one text
  (`RespelledFunctionIff`). On a given transaction a respelling matters exactly when it is decided
  on the raw words and these hold the function in one of the spellings only
  (`RespellingKeepsVerdictIff`).
* An event handler's own query misses no log without keys exactly when its filter names no topic
  (none at all, `[]`, or only nulls), or no log can be at its address; it misses no log with keys
  exactly when the readable topics are all one felt, or again no log can be at its address.
* A call handler's own query misses no transaction exactly when the filter can be met by none, when
  the transaction type has single calls only, or when an address in force does not contradict
  `to` and the query does not ask for function and target at once. A call handler without a filter
  is served exactly when its address does not reach the query.
* Grouping event handlers selects the union of what they select alone exactly when the limit does
  not drop addresses that are all there, or some topic can match nothing. For call handlers
  `CallGroupKeepsMembersIff` and `CallGroupAddsNothingIff` say when a group loses and gains rows.
* Setting `to` beside a datasource address can widen the accepted set; it shrinks it exactly when
  `to` can match nothing or is the same felt as the address.

## Model

| member | source | states |
|---|---|---|
| StarknetNode.Node.GetBlock | packages/node/src/starknet/api.starknet.ts:193-201 | one request: the chain may grow first; the answer is the asked block with the status of that instant, or a failure; a missing block always fails |
| FinalizedBlocks.FinalizedBlockService.FindFirstAcceptedOnL1 | packages/node/src/starknet/finalized.block.starknet.ts:36-61 | asks for the latest block, and for block 0 only if that is neither accepted nor block 0; a success is never undefined and is block 0 or an accepted block |
| FinalizedBlocks.FinalizedBlockService.BinarySearchAcceptedOnL1 | packages/node/src/starknet/finalized.block.starknet.ts:63-81 | undefined only for an empty or unaccepted range; otherwise an accepted block that is the end of the range or not below the frontier at the start; it fails only with the failure of its last request; at most one request more than the logarithm of the range |
| FinalizedBlocks.FinalizedBlockService.SearchFrom | packages/node/src/starknet/finalized.block.starknet.ts:98-105 | past an accepted block the search always finds an accepted block, not below the frontier at its start, unless its last request fails |
| FinalizedBlocks.FinalizedBlockService.GetFinalizedBlock | packages/node/src/starknet/finalized.block.starknet.ts:83-112 | the result lies between the frontiers at start and end; an unchanged cache was exact when its successor was looked up; the cache only moves up; a call fails only with the failure of its own last request, leaves a cached block alone then, and keeps what the jump of a cold call found; undefined never comes out; and how many requests are made |
| FinalizedBlocks.BitLengthIsLog2 | packages/node/src/starknet/finalized.block.starknet.ts:69-78 | the request bound is the logarithm of the range rounded down, plus one |
| FinalizedBlocks.CacheNeverDropsOverRun | packages/node/src/starknet/finalized.block.starknet.ts:84-112 | over any run of sequential calls, as Poll makes them, failed ones included, a cached block is kept or replaced by a higher one |
| FinalizedBlocks.ReturnedHeightsNeverDecrease | packages/node/src/starknet/finalized.block.starknet.ts:84-112 | over any such run returned heights never decrease |
| FinalizedBlocks.Poll | packages/node/src/starknet/finalized.block.starknet.ts:83-112 | n calls one after the other, on a chain that moves and requests that fail, make such a run: each keeps the contract of a call, and the heights returned never decrease |
| FinalizedInterleaving.EveryRunIsSafe | packages/node/src/starknet/finalized.block.starknet.ts:36-112 | the safety invariant is kept by every sequence of events from every safe state |
| FinalizedInterleaving.OverlappingCallsAreSafe | packages/node/src/starknet/finalized.block.starknet.ts:36-112 | from a cold start, with any interleaving of any number of calls, the cache and every returned block are block 0 or at most the frontier, and no search ends undefined |
| FinalizedInterleaving.FailuresAreLosses | packages/node/src/starknet/finalized.block.starknet.ts:36-112 | under any interleaving a call fails only if one of its requests was dropped or asked for a block the chain lacked |
| FinalizedInterleaving.ReturnedWasCached | packages/node/src/starknet/finalized.block.starknet.ts:83-112 | at the moment a call returns, the returned block is the cached one |
| FinalizedInterleaving.EveryCallFinishes | packages/node/src/starknet/finalized.block.starknet.ts:36-112 | whatever the others do, a call always has a next move and ends after at most 4 requests and the logarithm of the height |
| FinalizedInterleaving.OverlapRegresses | packages/node/src/starknet/finalized.block.starknet.ts:85 | two overlapping cold calls lower the cache from block 1 to block 0 |
| FinalizedInterleaving.OverlapReturnsStaleBlock | packages/node/src/starknet/finalized.block.starknet.ts:94-96 | a call started while block 1 is final and cached returns block 0 |
| FinalizedInterleaving.NeverRegressesIffSingleFlight | packages/node/src/starknet/finalized.block.starknet.ts:84-112 | the cache is sure never to be lowered exactly when at most one call is in flight |
| FinalizedInterleaving.ReturnsFreshIffSingleFlight | packages/node/src/starknet/finalized.block.starknet.ts:84-112 | every call is sure to return at least what was final at its start under exactly the same condition |
| Texts.HexEqPartialEquivalence | packages/node/src/starknet/utils.starknet.ts:291-297 | equality of felts is symmetric and transitive, reflexive on readable texts, and blind to case |
| Texts.HexEqIff | packages/node/src/starknet/utils.starknet.ts:291-297 | two texts are equal exactly when both write the same number below 2^251, in hex or decimal, the empty text writing 0 |
| Texts.LowerForgetsCase | packages/node/src/indexer/dictionary/v1/starknetDictionaryV1.ts:41 | lower case keeps the number, is idempotent, and makes hex texts equal that differ in case |
| Doubles.Round | packages/node/src/starknet/decodeCalldata.ts:64-69 | whole numbers are exact below 2^53 and never rounded across it |
| Doubles.RoundIsNearest | packages/node/src/starknet/decodeCalldata.ts:64-69 | rounding gives the nearest multiple of the power of 2 that leaves 53 bits, and of two nearest the even one |
| Calldata.DecodeLegacy | packages/node/src/starknet/decodeCalldata.ts:46-95 | accepts exactly the words whose count, headers and total fit the legacy layout, and returns the calls of that layout |
| Calldata.DecodeNew | packages/node/src/starknet/decodeCalldata.ts:97-119 | returns the reading of the newer layout or its first error; whatever count is claimed, a run that completes k calls, also one that then fails, has at least 1 + 3k words |
| Calldata.DecodeInvokeCalldata | packages/node/src/starknet/decodeCalldata.ts:38-44 | the legacy reading wherever that layout is accepted, else the newer one |
| CalldataLaws.ChoiceOfReading | packages/node/src/starknet/decodeCalldata.ts:38-95 | on felts, legacy is chosen exactly when word 1+4n exists and equals the sum of the claimed lengths as JavaScript numbers add up, which is the true sum below 2^53 |
| CalldataLaws.RoundedSumLosesOne | packages/node/src/starknet/decodeCalldata.ts:74-77 | lengths of 2^53 and 1 add up to 2^53 |
| CalldataLaws.NewRoundTrip | packages/node/src/starknet/decodeCalldata.ts:97-119 | parsing printed calls gives them back, whatever follows |
| CalldataLaws.NewPrefix | packages/node/src/starknet/decodeCalldata.ts:97-119 | printing what was parsed gives, by value, the words that were read; a claimed count above a third of the words is always rejected |
| CalldataLaws.NewFailure | packages/node/src/starknet/decodeCalldata.ts:97-119 | the newer layout is refused only at a count that is no number, or after calls that do stand there at a length that is no number or reaches past the end; which error is thrown |
| CalldataLaws.FewArgumentsAreSafe | packages/node/src/starknet/decodeCalldata.ts:38-44 | with no more arguments than calls the newer layout always comes back |
| CalldataLaws.NewLayoutComesBack | packages/node/src/starknet/decodeCalldata.ts:38-44 | every call list in the newer layout that is not recognised as legacy comes back |
| CalldataLaws.NewLayoutComesBackIff | packages/node/src/starknet/decodeCalldata.ts:38-95 | every call list in the newer layout comes back exactly when it is not recognised as legacy, or legacy header k names call k and its segment is that call's data |
| CalldataLaws.LayoutsMayCoincide | packages/node/src/starknet/decodeCalldata.ts:38-95 | two calls whose encoding is recognised as legacy and read there as the same two calls |
| CalldataLaws.SingleCallComesBackIff | packages/node/src/starknet/decodeCalldata.ts:38-95 | a single call comes back exactly when its first two arguments do not collide |
| CalldataLaws.EqualArgumentsCollide | packages/node/src/starknet/decodeCalldata.ts:73-82 | a call with arguments 5, 5 is decoded as a call without arguments |
| CalldataLaws.SegmentOfHeader | packages/node/src/starknet/decodeCalldata.ts:86-92 | every legacy header with readable offset and length denotes its segment clipped to the payload, for numbers of any size |
| CalldataLaws.LegacyRoundTrip | packages/node/src/starknet/decodeCalldata.ts:38-95 | any list of segments, in any order and overlapping, is recognised exactly when adding their lengths as JavaScript numbers gives their sum, as it does below 2^53; recognised, it comes back with its targets and selectors |
| CalldataLaws.LegacyConservation | packages/node/src/starknet/decodeCalldata.ts:73-94 | no more words are handed out than the headers claim, and as many exactly when every non-empty segment lies inside; the declared total is that claim exactly when the claim survives floating-point addition, as it does below 2^53 |
| Filters.TopicsHaveNoCommonElements | packages/node/src/starknet/block.starknet.ts:163-176 | true exactly when no pair of topic and key matches, directly or hashed |
| Filters.FilterLogsProcessor | packages/node/src/starknet/block.starknet.ts:143-160 | accepts exactly the logs with the right address that share a topic, or where one side has none |
| MatchLaws.FunctionByFelt | packages/node/src/starknet/block.starknet.ts:89-94 | a call has a function when its selector is the number of the text or of its hash; 0x matches nothing |
| MatchLaws.TargetByFelt | packages/node/src/starknet/block.starknet.ts:107-111 | a call has a target when both write one number; the empty text matches nothing |
| MatchLaws.TopicByFelt | packages/node/src/starknet/block.starknet.ts:163-176 | a topic meets a key that is the same number, that it is the hash of, or that is its hash |
| MatchLaws.AcceptsFieldByField | packages/node/src/starknet/block.starknet.ts:38-141 | a filter accepts exactly what its type, its sender, its function and its target with the address accept each alone |
| MatchLaws.TypeAndSenderAlone | packages/node/src/starknet/block.starknet.ts:45-80 | what type and sender accept, decoded calls or not |
| MatchLaws.EntryPointByFelt | packages/node/src/starknet/block.starknet.ts:62-72 | an entry point must be the number of the function text |
| MatchLaws.FunctionAlone | packages/node/src/starknet/block.starknet.ts:87-102 | a function is looked for in every decoded call |
| MatchLaws.TargetAlone | packages/node/src/starknet/block.starknet.ts:50-117 | a target, or else the address, is looked for in every decoded call and in the contract address |
| MatchLaws.RawWordsAlone | packages/node/src/starknet/block.starknet.ts:119-139 | without calls a function is found by its text or its selector's text, a target by number, null by null, anywhere among the words |
| MatchLaws.ThrowsIff | packages/node/src/starknet/block.starknet.ts:43-83 | a filter throws exactly when the header passes and decoding throws; no filter never throws |
| MatchLaws.CallsPassInAnyOrder | packages/node/src/starknet/block.starknet.ts:87-117 | reordering the decoded calls changes nothing |
| MatchLaws.OneCallDecides | packages/node/src/starknet/block.starknet.ts:87-117 | a filter that asks for one of function and target passes calls exactly when it passes one of them alone |
| MatchLaws.VerdictIgnoresCallOrder | packages/node/src/starknet/block.starknet.ts:38-141 | calldata that decode to the same calls in another order give the same verdict |
| MatchLaws.RawWordsPassInAnyOrder | packages/node/src/starknet/block.starknet.ts:119-139 | nor does the order of raw words matter |
| MatchLaws.OneTopicDecides | packages/node/src/starknet/block.starknet.ts:143-176 | a log passes exactly when one of its keys alone passes one of the topics alone |
| MatchLaws.LogAcceptedInAnyOrder | packages/node/src/starknet/block.starknet.ts:143-176 | hence the order of topics and keys is irrelevant |
| FilterLaws.RespellingKeepsVerdictIff | packages/node/src/starknet/block.starknet.ts:49-141 | padding, case and base of the felts in filter and address leave a verdict alone exactly when it does not come down to finding the function among the raw words, or these hold both spellings or neither |
| FilterLaws.RespellingKeepsVerdict | packages/node/src/starknet/block.starknet.ts:49-141 | in particular they never change a verdict where calls are decoded or the function is written the same |
| FilterLaws.OneSpellingIsFound | packages/node/src/starknet/block.starknet.ts:122-126 | of any two spellings of a number the raw words of some transaction have the one and not the other, and the verdicts differ |
| FilterLaws.RespelledFunctionIff | packages/node/src/starknet/block.starknet.ts:88-126 | two spellings of a function give the same verdict on every transaction exactly when they are the same text |
| FilterLaws.NameAndSelectorInterchangeIff | packages/node/src/starknet/block.starknet.ts:88-126 | without an entry-point selector a function name and its hashed selector give the same verdict exactly when it does not come down to the raw words, or these hold both or neither |
| FilterLaws.NamesNeverMatchEntryPoints | packages/node/src/starknet/block.starknet.ts:62-72 | with one, a function name rejects every transaction |
| FilterLaws.NarrowingShrinks | packages/node/src/starknet/block.starknet.ts:38-141 | setting type, sender or function, or `to` without an address, only shrinks the accepted set |
| FilterLaws.SettingToShrinksIff | packages/node/src/starknet/block.starknet.ts:103-117 | beside an address, setting `to` shrinks the accepted set exactly when it is harmless |
| Transactions.Transaction.ParseCallData | packages/node/src/starknet/utils.starknet.ts:164-192 | the cached calls if there are any; else for INVOKE of every version but 0x0 and its query version the reading of the wire layouts, and for all others one call to the contract at the entry point with the calldata, or undefined without these |
| Transactions.Transaction.FilterTransactionsProcessor | packages/node/src/starknet/block.starknet.ts:38-141 | the verdict of a fresh copy, with exactly the calls stored that the filter stores, also where it then rejects |
| Transactions.Transaction.ParseTransaction | packages/node/src/starknet/api.starknet.ts:331-359 | where assets load and decoding succeeds, exactly the decoded calls are cached, each with the arguments parsed from it, and every log stays in place with its own parsed arguments; otherwise nothing changes |
| Transactions.ParsingKeepsLogs | packages/node/src/starknet/api.starknet.ts:348-352 | parsed logs are the logs themselves up to decoded arguments |
| Transactions.OnlyFilteredCallsAreStored | packages/node/src/starknet/block.starknet.ts:95-116 | the cache is filled only with calls one of which the filter looked for, and always when it accepts for them |
| Transactions.RejectedYetStored | packages/node/src/starknet/block.starknet.ts:88-117 | a rejected transaction keeps its calls exactly when one has the function asked for and none the target |
| Transactions.MemoIsTransparent | packages/node/src/starknet/block.starknet.ts:83-117 | after any mix of filter evaluations and parses every filter answers as on a fresh copy, and the cached calls are the decoded ones |
| Queries.UniqKeepsDenotation | packages/node/src/indexer/dictionary/v1/starknetDictionaryV1.ts:199-205 | removing entries with equal sorted conditions never changes what is selected |
| Queries.SameKeyIff | packages/node/src/indexer/dictionary/v1/starknetDictionaryV1.ts:201-204 | two entries are duplicates exactly when they agree up to the order among different fields |
| Queries.UniqIsExact | packages/node/src/indexer/dictionary/v1/starknetDictionaryV1.ts:199-205 | what is kept is the first entry of every key, in order, and no key twice |
| DataSources.GroupingRepresents | packages/node/src/indexer/dictionary/utils.ts:9-38 | one group per kind and filter, listing exactly the addresses asked for, once each |
| Dictionary.ApplyAddresses | packages/node/src/indexer/dictionary/v1/starknetDictionaryV1.ts:28-58 | pushes the one address condition, or none if an address is absent or the limit is passed |
| Dictionary.EventFilterToQueryEntry | packages/node/src/indexer/dictionary/v1/starknetDictionaryV1.ts:60-81 | builds the entry whose meaning EventEntryMeaning gives |
| Dictionary.CallFilterToQueryEntry | packages/node/src/indexer/dictionary/v1/starknetDictionaryV1.ts:83-155 | builds the entry whose meaning CallEntryMeaning gives |
| Dictionary.BuildDictionaryV1QueryEntries | packages/node/src/indexer/dictionary/v1/starknetDictionaryV1.ts:158-206 | builds the list whose meaning CompiledMeaning gives |
| DictionaryLaws.EventEntryMeaning | packages/node/src/indexer/dictionary/v1/starknetDictionaryV1.ts:60-81 | the entry selects the logs at one of the addresses in force that have every topic |
| DictionaryLaws.CallEntryMeaning | packages/node/src/indexer/dictionary/v1/starknetDictionaryV1.ts:83-155 | the entry selects the calls to one of the addresses in force, or else to `filter.to`, with the sender, type and function asked for |
| DictionaryLaws.CompiledMeaning | packages/node/src/indexer/dictionary/v1/starknetDictionaryV1.ts:158-206 | the compiled list selects exactly what the set of asked specifications and addresses fetches |
| DictionaryLaws.FullScanIff | packages/node/src/indexer/dictionary/v1/starknetDictionaryV1.ts:163-197 | the list is empty, and everything scanned, exactly when nothing on calls or logs is asked for, or a block handler without modulo, a call handler with no field set or an event handler without topics is asked for, the latter two at absent or empty addresses only |
| DictionaryLaws.CompiledList | packages/node/src/indexer/dictionary/v1/starknetDictionaryV1.ts:158-206 | otherwise it holds a query for every call and event specification at its addresses, none for anything else, and no duplicates |
| DictionaryLaws.CaseLeavesNoTrace | packages/node/src/indexer/dictionary/v1/starknetDictionaryV1.ts:83-155 | the case of addresses, sender and target leaves no trace in a query |
| DictionaryLaws.OrderIsIrrelevant | packages/node/src/indexer/dictionary/v1/starknetDictionaryV1.ts:163-205 | projects that ask for the same set select the same rows, repetitions included |
| DictionaryLaws.PermutationIsIrrelevant | packages/node/src/indexer/dictionary/v1/starknetDictionaryV1.ts:163-205 | reordering datasources or handlers never changes what is selected |
| Coverage.EventGroupIsUnion | packages/node/src/indexer/dictionary/utils.ts:29-35 | grouped event handlers select the union of their members, or more when over the limit |
| Coverage.EventGroupIsUnionIff | packages/node/src/indexer/dictionary/v1/starknetDictionaryV1.ts:28-76 | they select no more than the union exactly when the limit does not drop addresses that are all there, or some topic can match nothing |
| Coverage.CallGroupAddsNothingIff | packages/node/src/indexer/dictionary/v1/starknetDictionaryV1.ts:28-149 | grouped call handlers, with or without a filter, select no more than their members exactly when the group is narrow: addresses kept, absent, or reached by `filter.to` |
| Coverage.CallGroupKeepsMembersIff | packages/node/src/indexer/dictionary/v1/starknetDictionaryV1.ts:116-135 | grouped call handlers, with or without a filter, lose no row of a member exactly when the group is wide: addresses kept, or `filter.to` loses none of them |
| Coverage.EventCoverage | packages/node/src/starknet/block.starknet.ts:143-176 | a log with keys that an event handler accepts is selected, whatever else the project asks for |
| Coverage.KeylessCoverageIff | packages/node/src/starknet/block.starknet.ts:152-158 | an event handler's query misses no accepted log without keys exactly when its filter names no topic, or no log can be at its address |
| Coverage.EventCoverageIff | packages/node/src/indexer/dictionary/v1/starknetDictionaryV1.ts:66-76 | a topic filter's query misses no accepted log with keys exactly when its readable topics are one felt, or no log can be at its address |
| Coverage.CallCoverage | packages/node/src/starknet/block.starknet.ts:38-141 | some decoded call of an accepted transaction is selected, whatever else the project asks for, if an address in force does not contradict `to` and function and target are not both asked of several calls |
| Coverage.CallCoverageIff | packages/node/src/indexer/dictionary/v1/starknetDictionaryV1.ts:101-149 | for every filter, address and limit: a call handler's query misses no accepted transaction exactly when none can be accepted, calls are single, or `to` does not contradict an address in force and function and target are not asked for at once |
| Coverage.UnfilteredCoverageIff | packages/node/src/starknet/block.starknet.ts:43 | without a filter every transaction is accepted, and the query misses none exactly when the address does not reach it |
| Dispatch.FetchBlock | packages/node/src/starknet/api.starknet.ts:203-240 | log j of transaction i has the address, keys and data of event j of receipt i and both indices; the block's list has it after all logs of earlier transactions, and nothing else |
| Dispatch.IndexerManager.IndexBlockData | packages/node/src/indexer/indexer.manager.ts:115-135 | a run makes exactly the block's visits in order, or a prefix whose last visit, and no other, threw; caches stay faithful, and every visit and the block at the end have the logs it was fetched with, although parsing replaces them |
| Dispatch.IndexerManager.IndexTransaction | packages/node/src/indexer/indexer.manager.ts:147-155 | one visit per datasource, in order, and in each the handlers whose filters accept an untouched copy; it stops only at a datasource that threw |
| Dispatch.IndexerManager.Offer | packages/node/src/indexer/indexer.manager.ts:183-210 | a Call handler that accepts an untouched copy is run after the transaction and its logs were parsed for its datasource, any other is not; it fails only where its filter or the handler itself threw |
| Dispatch.IndexerManager.IndexData | packages/node/src/indexer/indexer.manager.ts:183-210 | a datasource hands the transaction to exactly the Call handlers that accept an untouched copy, whatever earlier filters and parsers did to it, and fails only where a filter or the last handler threw |
| DispatchLaws.BlockTraceIsComplete | packages/node/src/indexer/indexer.manager.ts:115-165 | the visits of a fetched block with transactions are exactly those it asks for, in strictly ascending order |
| DispatchLaws.AscendingMeansOnceAndInOrder | packages/node/src/indexer/indexer.manager.ts:123-129 | hence no visit happens twice and transactions precede their logs |
| DispatchLaws.EveryDataSourceSeesAllLogs | packages/node/src/starknet/api.starknet.ts:222-227 | the logs each datasource is shown are the block's flattened logs, with address, keys and data, in order |
| DispatchLaws.EmptyBlockIsSkipped | packages/node/src/starknet/block.starknet.ts:178-183 | a fetched block without transactions is visited by nobody, not even by block handlers |
| DispatchLaws.LightBlockShowsItsLogs | packages/node/src/indexer/indexer.manager.ts:130-134 | without transactions every datasource is shown the log list, in order |
| DispatchLaws.BlockRunsAre | packages/node/src/indexer/indexer.manager.ts:123-155 | over a block every Call handler is given exactly the transactions it accepts untouched, once each, in order |
| DispatchLaws.FetchAndIndex | packages/node/src/indexer/indexer.manager.ts:115-135 | fetching and indexing any block: the visits really made are ascending, exactly those asked for, and show every datasource the flattened logs; every Call handler is run on exactly the transactions it accepts untouched, once; an interrupted run is a prefix that ends in the visit that threw |

## Left out

- Request plumbing (provider, retries, connection pool, error classes): a request here succeeds or fails.
- The light-block path: its log list is always empty, so it says nothing about events.
- starknet.js: ABI parsing, address computation and the hash itself; addresses are bounded by 2^251, and no statement depends on the bound.
- Decoded arguments and the ABI cache: arbitrary here; only that they leave target, selector and data alone is proved.
- Texts that are neither whole numbers nor names (fractions, exponents, signs, surrounding blanks): JavaScript reads some of them as numbers.
- Lower-casing touches ASCII letters only.
- Block hashes and reorganisations above the frontier: a header is its number and status.
- Memory and time for a claimed call count far beyond the calldata: the legacy decoder's first loop is modelled with all its turns.
- The text of JSON keys: groups compare kind and filter, and duplicate entries compare entity and sorted conditions, as structures, so filters that differ only in the order of their fields are one group here.
- `filterBlocksProcessor` with its timestamp part, the cron schedule, and the dictionary service's own execution of queries.
- What node-core's `indexData` does with a block or a log: here it may do anything to its own state and may throw; for a transaction it filters, parses and runs one handler after the other, as the tables in indexer.manager.ts say, and who is run is stated for uninterrupted runs.
- Numbers past 2^1024, which JavaScript rounds to Infinity: calldata words are felts, below 2^252.
- Coverage.EventCoverage: needs the hash to meet no topic or key by accident, and the topics to agree; EventCoverageIff shows the second is needed.
- Coverage.CallCoverage: needs a sender on the transaction, which formatted transactions always have, and so do the transactions CallCoverageIff speaks of.
