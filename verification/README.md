# PowerGSLB decision logic, modelled and proved

PowerGSLB answers DNS queries for load-balanced names. This project models the parts of it that decide something and
proves what they promise. It has five parts.

**The DNS answer pipeline.** A lookup finds the owning zone (`ZoneLookup`), groups the rows by qtype, keeps the records
whose view admits the client (`ViewRules`, `Client`), picks a tier by health and specificity (`PowerDns`), lets the
routing policy choose (`Routing`, `StickyHashing`, `WeightedSampling`) and stamps every row with an EDNS Client Subnet
scope. The main theorem, `EcsScope.LookupScopeSound`, is about two lookups: a client subnet of the same source length
that agrees with the answered one on the scopeMask bits of a row would have been given exactly the same rows of that
qtype, scopes included, unless the qtype is SOA, NS or DS. `EcsLimits` says exactly how far this reaches.

**The health monitor.** `HealthStatus` and `Debounce` hold the status set, the check thread and the meaning of its
rise/fall counters over whole histories. `MonitorRuns` is the manager and its threads as an interleaved state machine,
one step per access to shared state, with an invariant of every run. `Monitor` is the reconcile loop as an object with
its thread table and the shared stop budget.

**The grid reads.** `Grid` gives the search, sort and paging clauses their meaning and lets the server answer anything
that meaning allows. `RecordsTable` proves the page-then-join plan equal to the full join. `LikePatterns` proves the
LIKE escaping exact; `Collation` is how columns compare text.

**Audited writes.** `Storage` says what a statement does, `Database` is the connection object with transactions,
one-shot reconnect and failures of any kind at any driver call, and `Audit` runs `save_data` and `delete_data` on top.
The result is that the audit trail replays to the stored rows after any sequence of writes.

**The nested query parser.** `QueryParser` follows the parser pair by pair, `QueryRoundTrip` prints nested objects and
proves exactly which of them come back. `QueryLists` covers the other list notation, repeated keys, and `QueryFailures`
says when a parse fails and how.

Every method is proved equal to a function or against a stated new state, and the properties are lemmas about those
functions and states. `Common` and `Ordering` hold sequence facts and the stable sort. `PolicyAnswers`, `MonitorHistory`,
`GridRows` and `RecordRows` say what the answers, runs and pages are without the functions that compute them.

Points where a reading of the source had to be chosen:

- Random results are explicit draws, one source per rrset. The stable hash and the geolocation lookup are arbitrary
  fixed functions. Theorems hold for all of them.
- A lookup reads the health of each record at most once, so the down set is a function from record id to whatever that
  read returned. This covers any change of health during a lookup.
- A client subnet has zero bits beyond its source prefix, as section 6 of RFC 7871 requires.
- `shutdown(0)` signals and returns at once, as the code does; its documentation says that 0 waits indefinitely.
- SOA, NS and DS rows always carry scope 0, as the code documents. `EcsLimits.ScopeIsSoundExactly` shows that among
  client subnets of the same source length scope soundness holds for a qtype exactly when it is none of the three; for
  these, scope 0 is right where every view matches all and the policy does not depend on the client
  (`EcsScope.SharedAnswerIsGlobal`).
- A view narrower than the client's source prefix is answered with the full source prefix as scope, so such a row is good
  only for client subnets of the same source length: a longer one may lie outside the view, and an opt-out client's row
  with scope 0 is not good for everybody. `EcsLimits.ReuseIsSoundExactly` is the exact limit across source lengths;
  `EcsLimits.SelectionFollowsViews` says how much of the client the views and the policy really read.
- An empty answer has no row to carry a scope. `EcsLimits.EmptyExactly` says exactly when an rrset gives a client no row,
  `EmptyForAllExactly` when all clients share that, and `EmptinessFollowsViews` how far it may be reused.
- A list directly inside a list does not survive the parser: a nested list keeps its int-keyed dictionary form.
  `QueryRoundTrip.RoundTrip` is therefore an equivalence.
- A record name left of the zone that is literally `@` is answered as the zone apex. `ZoneLookup.ReturnedNameIsQueried`
  is an equivalence for the same reason. Text compares by the column's collation, an arbitrary equality of characters
  under which a dot equals only a dot.
- Parsing may fail otherwise than by `QueryParserError`, the only error the caller expects: on a clash such as a=1,
  a[b]=2, and on digits that `int()` refuses. `QueryFailures.ParseFails` says when.
- Key text that `isdigit()` accepts and `int()` refuses, such as a superscript two, is a ValueError; digits of other
  scripts are list indices. The digit tables are those of Unicode 15.0, which Python 3.12 uses.
- `transaction()` rolls back with errors suppressed and then switches autocommit on, which commits whatever is still
  open. `Database.MySQLDatabase.Leave` gives the exact condition under which a raised block becomes durable after all:
  the rollback is rejected by a session that lives on. The audit theorem is stated for rollbacks that are not rejected.
- An exit by something that is not an `Exception`, such as an interrupt, skips the rollback, so switching autocommit on
  commits what ran. Between the write and its trail row that is a change without a trail: `Audit.Perform` allows an
  interrupt at any point of the block and shows that this is the only step that is not accounted for. An interrupted
  request closes its connection.
- Switching autocommit back on may itself be rejected by a session that lives on. Then a later single statement succeeds
  and is not durable, against what the class documents. `Leave` says exactly when autocommit is back on, `Run` that a
  successful statement outside a transaction is durable exactly when it is on, and `Database.WriteStaysPending` is a run
  in which it is not.
- Row key 0 means every row to `_read_row`, so the read-back of a type saved under key 0 may answer another row, and then
  its trail row does not replay. `Audit.KeyZeroReplaysExactly`: it replays under every read-back exactly when the types
  table held no row before but, possibly, the one being updated. `Audit.PerformAll` asks for just that.

## Model

| member | source | states |
|---|---|---|
| Client.AgreeIffShiftsAgree | src/powergslb/routing/sticky_hash.py:26-28 | Equality after shifting out the host bits holds exactly when the leading bits agree one by one |
| Client.ContainsIffAgree | src/powergslb/view/rule.py:89-91 | A CIDR contains an address exactly when family and leading prefix bits agree |
| Client.SubnetDeterminesAddress | src/powergslb/client/context.py:24-30 | Two client subnets of one length that agree on that length are one and the same address |
| ViewRules.ViewRule.Matches | src/powergslb/view/rule.py:76-99 | Short-circuits and memoised geo lookup answer exactly "some CIDR or some geo selector admits the client"; the memo stays right, is written at most once, and only when the CIDRs miss and there are selectors |
| ViewRules.MatchAllAdmitsByCidr | src/powergslb/view/rule.py:32-35 | A rule with a zero-length CIDR of both families admits every address by its CIDRs |
| ViewRules.AdmitsExactly | src/powergslb/view/rule.py:89-99 | A rule admits exactly the clients that agree with one of its CIDRs, and, with a reader, those whose country a country selector or whose continent a continent selector names |
| ViewRules.MatchesAllExactly | src/powergslb/view/rule.py:32-35 | A rule matches all exactly when it has a CIDR of length 0 in each family |
| Routing.TopTier | src/powergslb/routing/base.py:145-157 | The tier is exactly the candidates that no other outweighs, each as often as it occurs and in candidate order |
| Routing.HighestTier | src/powergslb/routing/base.py:145-157 | The grouping loop and the largest dictionary key give that tier, in candidate order |
| StickyHashing.SameNetworkIffAgree | src/powergslb/routing/sticky_hash.py:15-29 | Two clients share the masked network exactly when they agree on the policy's prefix of their family |
| StickyHashing.MaskedIsPrefix | src/powergslb/routing/sticky_hash.py:26-28 | The masked network agrees with the client on the prefix and is zero behind it |
| StickyHashing.PickIsOrderIndependent | src/powergslb/routing/sticky_hash.py:48-63 | The answered contents, in order, are the same for every permutation of the candidates |
| StickyHashing.PickIsTop | src/powergslb/routing/sticky_hash.py:48-63 | The pick has min(count, n) records and none that is left out ranks above one that is picked |
| StickyHashing.DroppingARecord | src/powergslb/routing/sticky_hash.py:48-63 | Dropping a record outside the top changes nothing; dropping a winner keeps the other winners in order and appends only the next-ranked record |
| WeightedSampling.WeightedPick | src/powergslb/routing/weighted_random.py:13-27 | The cumulative walk stops at the position whose bucket holds the draw |
| WeightedSampling.PickIsBucket | src/powergslb/routing/weighted_random.py:22-26 | Position i is picked exactly by the draws between the cumulative weights before and after it |
| WeightedSampling.PickIsProportional | src/powergslb/routing/weighted_random.py:13-27 | Exactly weight-many of the total draws pick a position |
| WeightedSampling.PickHasWeight | src/powergslb/routing/weighted_random.py:27 | A draw below the total never picks a zero-weight record, so the fallback is unreachable |
| WeightedSampling.SelectWeighted | src/powergslb/routing/weighted_random.py:45-64 | The select loop terminates with the specified selection; selected plus remaining stays the candidates as a multiset |
| WeightedSampling.RemoveFirstIsFirst | src/powergslb/routing/weighted_random.py:63 | Removing the chosen record drops exactly its first occurrence and moves no other |
| WeightedSampling.SelectionIsASample | src/powergslb/routing/weighted_random.py:52-64 | Whatever is drawn, min(max_answers, n) records are taken without replacement, and a zero-weight record is answered only if no positive weight is left over |
| WeightedSampling.SampledFollowsDraws | src/powergslb/routing/weighted_random.py:55-63 | The loop answers exactly what a legal vector of draws picks, in order |
| WeightedSampling.VectorsForIsExact | src/powergslb/routing/weighted_random.py:55-63 | The counted set is exactly the legal draw vectors that give the ordered selection |
| WeightedSampling.SelectionIsProportional | src/powergslb/routing/weighted_random.py:55-63 | The number of draw vectors giving an ordered selection is the product of its weights |
| PolicyAnswers.RoundRobinAnswers | src/powergslb/routing/round_robin.py:34-37 | A top tier within the cap is answered whole, a larger one at the drawn positions |
| PolicyAnswers.StickyHashAnswers | src/powergslb/routing/sticky_hash.py:95-107 | The answer is the top tier's records of largest hash under the masked network, in that order; none left out ranks before one answered |
| PolicyAnswers.WeightedRandomAnswers | src/powergslb/routing/weighted_random.py:45-64 | The policy's answer, whatever is drawn: over the candidates stably sorted by content, what the draws pick by cumulative bucket while weight is left, then an equal sample of what is left |
| PolicyAnswers.WeightedRandomIsProportional | src/powergslb/routing/weighted_random.py:45-64 | The policy answers an ordered target of positive weights exactly when the draws made are one of its vectors, of which there are as many as the product of the weights |
| PowerDns.GroupedIsExact | src/powergslb/server/http/handler/powerdns.py:164-167 | Grouping yields one entry per occurring qtype, in order of first occurrence, holding that qtype's records in order |
| PowerDns.PowerDNSRequestHandler.IsInView | src/powergslb/server/http/handler/powerdns.py:177-191 | A rule that does not compile admits nobody; otherwise the answer is what the rule means, and a resolved geolocation is never replaced |
| PowerDns.PowerDNSRequestHandler.SelectRrset | src/powergslb/server/http/handler/powerdns.py:79-93 | One rrset's answers are the specified choice, or nothing when no record is in view or the policy does not compile |
| PowerDns.PowerDNSRequestHandler.SelectRecords | src/powergslb/server/http/handler/powerdns.py:62-94 | The loop answers every such rrset, in dictionary order, and no other |
| PowerDns.PowerDNSRequestHandler.GetLookup | src/powergslb/server/http/handler/powerdns.py:159-175 | The lookup with its mutable client context returns the rows specified from client, records and environment alone |
| PowerDns.SelectedHasScope | src/powergslb/server/http/handler/powerdns.py:154 | The scope of an rrset that was answered never fails on a policy that does not compile |
| PowerDns.SelectAllGivesLookup | src/powergslb/server/http/handler/powerdns.py:168-175 | Selecting first and scoping afterwards gives the rows of each rrset one after the other |
| EcsScope.PolicyReadsItsPrefix | src/powergslb/routing/base.py:159-165 | No policy's choice depends on more of the client than its network prefix |
| EcsScope.NarrowScopeIsMatchAll | src/powergslb/server/http/handler/powerdns.py:145-157 | A scope below the source prefix occurs only where every view matches all; it is the policy's prefix if there is one, and the same for every client of the family with a source prefix no shorter |
| EcsScope.GroupScopeSoundBelowSource | src/powergslb/server/http/handler/powerdns.py:154-157 | A scope below the source prefix is sound for every client that agrees on it and whose source prefix is no shorter, host bits or not |
| EcsScope.GroupScopeSound | src/powergslb/server/http/handler/powerdns.py:131-157 | Two-run property of one rrset: client subnets of the same source length that agree on the scope get identical rows and scope |
| EcsScope.SharedAnswerIsGlobal | src/powergslb/server/http/handler/powerdns.py:134-137 | Match-all views under a client-independent policy give all clients of both families the same rows with scope 0 |
| EcsScope.ScopeWithinSource | src/powergslb/server/http/handler/powerdns.py:145-157 | No row of a lookup has a scope longer than the source prefix, so an opt-out yields scope 0 |
| EcsScope.ScopeOfRow | src/powergslb/server/http/handler/powerdns.py:131-157 | The exact scope of every row, from the records and the client: 0 for SOA, NS and DS, the source prefix under a narrow view, else min(sticky prefix of the family, source prefix), and 0 under the other policies |
| EcsScope.RowsOfQtype | src/powergslb/server/http/handler/powerdns.py:170-175 | The rows of one qtype in a lookup are that rrset's answers, so rrsets do not interfere |
| EcsScope.LookupScopeSoundBelowSource | src/powergslb/server/http/handler/powerdns.py:62-175 | A row whose scope is below the source prefix may be reused by every client that agrees on it, of any source prefix no shorter and any host bits |
| EcsScope.LookupScopeSound | src/powergslb/server/http/handler/powerdns.py:62-175 | Client-subnet scope soundness of the whole lookup between client subnets of the same source length (sections 7.2.1 and 7.3.1 of RFC 7871) |
| EcsLimits.ScopeIsSoundExactly | src/powergslb/server/http/handler/powerdns.py:142-143 | Among client subnets of the same source length, reuse within the scope is right for all of them and all records exactly for the qtypes that are not forced to scope 0 |
| EcsLimits.ReuseIsSoundExactly | src/powergslb/server/http/handler/powerdns.py:145-157 | For any other qtype and two source lengths no shorter than the scope, reuse is right for all client subnets and records exactly when the lengths are equal or the scope is below the source prefix it was computed for |
| EcsLimits.AuthorityScopeDoesNotSeparate | src/powergslb/server/http/handler/powerdns.py:142-143 | For each of SOA, NS and DS: a record in a narrow view is answered with scope 0 to one client and not at all to another |
| EcsLimits.EmptyExactly | src/powergslb/server/http/handler/powerdns.py:79-93 | An rrset gives a client no row exactly when its policy does not compile or none of its records is in view |
| EcsLimits.EmptyForAllExactly | src/powergslb/server/http/handler/powerdns.py:79-93 | All clients share the empty answer exactly when the policy does not compile or no view admits any address |
| EcsLimits.SelectionFollowsViews | src/powergslb/server/http/handler/powerdns.py:79-93 | Where no view reads the geolocation and neither views nor policy read more than n bits of the client, clients that agree on n bits are answered with the same records, whatever their source prefixes |
| EcsLimits.EmptinessFollowsViews | src/powergslb/server/http/handler/powerdns.py:79-81 | The emptiness alone is shared on n bits whatever the policy reads |
| EcsLimits.EmptyAnswerHasNoScope | src/powergslb/server/http/handler/powerdns.py:79-81 | A client outside the view gets no row and so no scope, next to one that gets a scoped row |
| EcsScope.PolicySelects | src/powergslb/routing/round_robin.py:34-37 | Every policy answers candidates, none more often than it occurs; tiered policies exactly min(max_answers, tier size) of the maximal weight, weighted-random min(max_answers, n) |
| EcsScope.CandidatesAreBestTier | src/powergslb/server/http/handler/powerdns.py:83-87 | The candidates are, in order, exactly the in-view records of the first non-empty of live specific, live catch-all, down specific, down catch-all |
| EcsScope.AnswersComeFromOneTier | src/powergslb/server/http/handler/powerdns.py:62-102 | Whatever the health reads return, an rrset with an in-view record and a valid policy gets a non-empty answer from one tier, no record more often than it occurs, and no in-view record is in a better tier |
| ZoneLookup.SuffixesAreExact | src/powergslb/database/mysql/powerdns.py:54-62 | The suffix list is exactly the name and what follows each of its dots |
| ZoneLookup.OwningZoneIsNearest | src/powergslb/database/mysql/powerdns.py:95-99 | Up to the collation, the longest stored suffix is exactly the stored zone that encloses the name and that every other enclosing zone encloses (section 4.3.2 step 2 of RFC 1034) |
| ZoneLookup.OwningZoneIsUnique | src/powergslb/database/mysql/powerdns.py:95-99 | Under the unique index there is at most one owning zone, so the LIMIT 1 chooses nothing |
| ZoneLookup.OwningZoneExists | src/powergslb/database/mysql/powerdns.py:95-99 | If any stored zone encloses the name, an owning zone is found |
| ZoneLookup.ReturnedNameIsQueried | src/powergslb/database/mysql/powerdns.py:75-103 | A returned row's rebuilt name is the dot-stripped query name, up to the collation, exactly unless the part left of the zone is literally `@` |
| ZoneLookup.StripsTrailingDots | src/powergslb/database/mysql/powerdns.py:75 | Exactly the dots at the end of the query name are stripped |
| ZoneLookup.ReturnedExactly | src/powergslb/database/mysql/powerdns.py:75-118 | Apart from a left part that is literally `@`, the query returns exactly the enabled rows of the owning zone with the queried type, or any for ANY, whose name and zone make up the query name |
| ZoneLookup.ApexMarkerIsMistaken | src/powergslb/database/mysql/powerdns.py:80-103 | One input: below the zone `ex` the name `@.ex` is answered with the apex row under the name `ex` |
| ZoneLookup.QueriedRowIsReturned | src/powergslb/database/mysql/powerdns.py:89-118 | No enabled row of the owning zone with the queried name and type is missed |
| HealthStatus.StatusRegistry.Retain | src/powergslb/monitor/status.py:77-85 | Exactly the ids outside the valid set are dropped and returned |
| Debounce.CheckThread.CheckFall | src/powergslb/monitor/check/thread.py:33-40 | A failure counts up fall, clears rise, and marks this id down from the threshold on |
| Debounce.CheckThread.CheckRise | src/powergslb/monitor/check/thread.py:42-49 | A success counts up rise, clears fall, and marks this id up from the threshold on |
| Debounce.CheckThread.Task | src/powergslb/monitor/check/thread.py:51-62 | One run moves counters and status by the debounce step, an exception counting as a failure; no other id changes |
| Debounce.DebounceClosedForm | src/powergslb/monitor/check/thread.py:33-62 | After any history the id is down exactly when a window of fall failures has no later window of rise successes, or it started down and there was no such window |
| Debounce.FlipRateIsBounded | src/powergslb/monitor/check/thread.py:33-62 | The number of runs that change the status, times min(fall, rise), never exceeds the number of runs |
| Debounce.OneRunCorrects | src/powergslb/monitor/check/thread.py:38-49 | After any interference by other writers, one undisturbed run makes the status its outcome exactly when the trailing own runs reach the threshold or it agreed already |
| MonitorRuns.NextKeeps | src/powergslb/monitor/monitor.py:120-197 | Every step of manager and threads keeps the invariant of table, signals, writers and status |
| MonitorRuns.RunsKeepInvariant | src/powergslb/monitor/monitor.py:161-212 | The invariant holds in every state of every interleaved run |
| MonitorRuns.BetweenReconciles | src/powergslb/monitor/monitor.py:161-197 | Between reconciles the table has exactly the desired ids with their checks, unchanged live threads are the same ones, and an id is down only if it is monitored or belongs to an abandoned, already signalled thread |
| MonitorRuns.AtMostOneMoreTask | src/powergslb/monitor/thread.py:24-43 | In every run a thread finishes at most one more task call after its signal |
| MonitorHistory.StepTracks | src/powergslb/monitor/check/thread.py:33-62 | Every interleaved step moves a thread's counters and its id's status as the debounce says of the outcome, of the read that was really made, and of interference |
| MonitorHistory.RunTracks | src/powergslb/monitor/check/thread.py:33-62 | In every run, from its start on, a thread's counters and its id's status are the debounce of its own outcomes and reads and of the interference |
| MonitorHistory.OnlyWriterDebounces | src/powergslb/monitor/check/thread.py:33-62 | While a thread is the only writer of its id and nothing cleans it, the id is down exactly when the windows of the thread's finished calls say so |
| MonitorHistory.DeadThreadsLeave | src/powergslb/monitor/monitor.py:172-189 | A thread that is dead when a reconcile begins is out of the table when it ends |
| MonitorHistory.NoSecondCallAfterSignal | src/powergslb/monitor/thread.py:24-43 | In no run does a thread end a second task call after it was signalled |
| MonitorHistory.FirstFailureMarksDown | src/powergslb/monitor/check/thread.py:33-40 | There is a run in which a record is taken up, its first call fails under fall 1, and its status goes down |
| MonitorRuns.ManagerLeavesThreadsAlone | src/powergslb/monitor/monitor.py:161-197 | The manager never touches a thread's counters or place and starts threads with fresh counters |
| MonitorRuns.ManagerDropsOnlyUndesired | src/powergslb/monitor/monitor.py:42-49 | The manager changes the status only of ids no longer desired, when it cleans up |
| Monitor.SignalAlive | src/powergslb/monitor/monitor.py:131-138 | The first loop signals exactly the live threads, leaves the request of dead ones as it was, waits for none, and finds the largest check timeout among the live |
| Monitor.JoinAlive | src/powergslb/monitor/monitor.py:140-143 | The join loop waits once per live thread and all waits together stay within the budget |
| Monitor.StopThreads | src/powergslb/monitor/monitor.py:120-147 | All live threads are signalled before the first wait, and stopping any number of threads takes at most twice the largest check timeout among them |
| Monitor.MonitorManager.Diff | src/powergslb/monitor/monitor.py:169-185 | Exactly the removed, changed and dead threads are to stop; exactly the desired ids without a fitting live thread are to start |
| Monitor.MonitorManager.StartAll | src/powergslb/monitor/monitor.py:191-192 | Every id to start gets a fresh live thread with its desired check, all other entries stay |
| Monitor.MonitorManager.Reconcile | src/powergslb/monitor/monitor.py:161-197 | Afterwards the table has exactly the desired ids; fitting live threads are the same untouched objects, all others are new, replaced live ones were signalled, and exactly the undesired ids left the status |
| LikePatterns.EscapeIsPerCharacter | src/powergslb/database/mysql/tables.py:159-166 | The three chained replaces escape each character once, on its own |
| LikePatterns.EscapedMatchesItself | src/powergslb/database/mysql/tables.py:159-166 | Escaped text in a pattern matches exactly that text, up to the collation's character equality |
| LikePatterns.PatternIsExact | src/powergslb/database/mysql/tables.py:168-180 | The begins, contains and ends patterns match exactly the texts with that prefix, substring or suffix |
| Grid.ReadExists | src/powergslb/database/mysql/tables.py:301-332 | For every page and every table the modelled read has an answer, so the results about all answers are not vacuous |
| Grid.LimitedOrderIsUnique | src/powergslb/database/mysql/tables.py:284-299 | With the recid tiebreaker a limited query has one possible order, however the server breaks ties |
| Grid.PagedTotalIsExact | src/powergslb/database/mysql/tables.py:325-332 | The total of a page with limit and offset is the number of matching rows, whether or not COUNT ran |
| Grid.PagesTile | src/powergslb/database/mysql/tables.py:270-332 | Pages at offsets 0, L, 2L, ... read by separate queries concatenate to the matching rows, each once and sorted, all with the true total |
| GridRows.WhereExactly | src/powergslb/database/mysql/tables.py:234-268 | A row matches under AND when every search of known type and operator holds of it, and under OR when one does; unknown fields and unconvertible values hold of nothing, and an OR of nothing usable matches nothing |
| GridRows.RowsAreSorted | src/powergslb/database/mysql/tables.py:284-299 | Of two rows of a page, the earlier has in the first requested term in which they differ the smaller cell, or the larger one if the term is descending |
| GridRows.TiesByRecid | src/powergslb/database/mysql/tables.py:295-296 | Under a limit, rows that tie in every requested term stand in ascending order of recid |
| GridRows.UnsortedPageByRecid | src/powergslb/database/mysql/tables.py:293-299 | A limited page without a known sort term has strictly increasing recids |
| GridRows.NoOffsetIsStart | src/powergslb/database/mysql/tables.py:277-282 | A limit without an offset reads from the start and reports the number of rows read |
| RecordsTable.StatusJoinPage | src/powergslb/database/mysql/tables.py:650-661 | The status loop gives every joined row the status its page row carries |
| RecordsTable.JoinedRowsAreOnPage | src/powergslb/database/mysql/tables.py:657-660 | Every joined row stands on the page under its own recid, so the status lookup never misses |
| RecordsTable.JoinPageIsLift | src/powergslb/database/mysql/tables.py:514-528 | Whatever order the join returns, the page comes out joined row by row in page order, skipping exactly the records deleted in between |
| RecordsTable.MatchingLifts | src/powergslb/database/mysql/tables.py:504-512 | A local search matches the same records in the records-only source and in the full join |
| RecordsTable.RecordsFastPath | src/powergslb/database/mysql/tables.py:542-561 | For local pages the key-first plan returns what the full join may return, with the same total, but for rows deleted between its two queries; rows are identical under a limit and otherwise equal up to ties |
| RecordsTable.StatusFastPath | src/powergslb/database/mysql/tables.py:617-689 | The same for the status table, for every list of down ids |
| RecordRows.RecordsPageShows | src/powergslb/database/mysql/tables.py:463-488 | Every row of a records page shows, column by column, one record and the rows its foreign keys name |
| RecordRows.StatusPageShows | src/powergslb/database/mysql/tables.py:674-689 | So does every row of a status page, which is Off exactly if the record is disabled or its id is down |
| RecordRows.FastPathPages | src/powergslb/database/mysql/tables.py:504-512 | A page is local exactly when every field it searches or sorts by is one of the table's local fields |
| Database.MySQLDatabase.Reconnect | src/powergslb/database/mysql/database.py:47-55 | The old session is given up whatever closing says; success is a new session with autocommit on and nothing pending |
| Database.MySQLDatabase.OpenCursor | src/powergslb/database/mysql/database.py:73-89 | Reconnects once exactly when no transaction is open and the connection pings neither inside cursor() nor after it |
| Database.MySQLDatabase.Run | src/powergslb/database/mysql/database.py:91-152 | A statement is sent at most once with at most one reconnect; inside a transaction nothing becomes durable and the session stays; outside, a successful statement is durable exactly when autocommit is on, and on exactly when it was on or the connection was replaced |
| Database.MySQLDatabase.Begin | src/powergslb/database/mysql/database.py:164-168 | Entering changes no data, reconnects exactly when the ping fails, and sets the flag only with autocommit off on a live session |
| Database.MySQLDatabase.Commit | src/powergslb/database/mysql/database.py:171 | A commit makes everything durable exactly when its call takes effect on a live session, reported or not, and otherwise nothing |
| Database.MySQLDatabase.Leave | src/powergslb/database/mysql/database.py:169-178 | The flag is clear after every exit; when the exit is normal, what a returned, raised or escaping block leaves durable, and when autocommit is back on, are each given exactly |
| Database.Transact | src/powergslb/database/mysql/database.py:154-178 | A whole block sends its statements at most once each, in order, to one session; success made all durable; provided no rollback is rejected, a block stopped by a failing statement leaves nothing durable and a failed commit all or nothing; when nothing fails, a block that can violate no key succeeds |
| Database.WriteStaysPending | src/powergslb/database/mysql/database.py:21-22 | A run in which a later write outside any transaction succeeds and is not durable, because the session rejected switching autocommit back on |
| Audit.ReadRow | src/powergslb/database/mysql/w2ui.py:140-148 | A nonzero key reads its row or none; any row answered is a stored one |
| Audit.WriteRow | src/powergslb/database/mysql/tables.py:348-385 | A write that affected a row replaced the before row, if any, by the posted one under the written key; otherwise nothing changed |
| Audit.SaveRowReplays | src/powergslb/database/mysql/w2ui.py:116-121 | A save's trail row replays to the new rows exactly when it carries the row the write stored, key renames of types included |
| Audit.KeyZeroReplaysExactly | src/powergslb/database/mysql/w2ui.py:116-120 | A type written under key 0 leaves a trail row that replays under every read-back exactly when the table held no row before but, possibly, the one being updated |
| Audit.KeyZeroMayMisrecord | src/powergslb/database/mysql/w2ui.py:116-120 | One input: saving a type under key 0 next to another type may read back that one, and then the trail does not replay |
| Audit.DeletionsReplay | src/powergslb/database/mysql/w2ui.py:79-81 | The trail rows of a deletion replay to the table without exactly those keys |
| Audit.SaveBlock | src/powergslb/database/mysql/w2ui.py:112-122 | A save returns only for a plain table, a complete record and a free key, and then always unless something fails; it reports 1 for an insert or a changed row and 0 otherwise. One that affected a row stored the posted row under its key in place of the before row and added one trail row with both; one cut off by an interrupt did nothing, all of this, or, only between write and trail, stored the row alone |
| Audit.SavedIsAccounted | src/powergslb/database/mysql/w2ui.py:115-121 | Under a safe key that trail row carries the posted row as stored and replays to the change |
| Audit.DeleteBlock | src/powergslb/database/mysql/w2ui.py:75-82 | A delete that returns removed exactly the matching rows, reports their number, and added exactly their deletion rows to the trail; one cut off by an interrupt did nothing, all of this, or, only between write and trail, removed the rows alone |
| Audit.UnauditedIsNoStep | src/powergslb/database/mysql/database.py:169-178 | A change of the rows without a trail row is no accounted step and does not replay |
| Audit.Perform | src/powergslb/database/mysql/w2ui.py:61-122 | Success only for a plain table, a complete record and a free key, and exactly then when nothing fails; other tokens change nothing. Whatever fails and wherever an interrupt hits: on success the reported change and its trail rows are durable, otherwise that or nothing, or, only for an interrupt between write and trail, the change alone; under a safe key the step is accounted for exactly unless it is such a change |
| Audit.RunReplays | src/powergslb/database/mysql/w2ui.py:61-122 | Over any number of such units of work the trail replays from the initial rows to the current ones |
| Audit.PerformAll | src/powergslb/database/mysql/w2ui.py:61-122 | After any sequence of saves and deletes with failures and interrupts anywhere, if every save met data on which its key is safe and none was interrupted between write and trail, the trail replays to exactly the stored rows; each success reported is one of the operation, and when nothing fails every accepted operation succeeds |
| QueryParser.MoreThanOneIndex | src/powergslb/server/http/handler/queryparser.py:50-67 | The scanning loop answers whether that many complete bracket groups follow one another |
| QueryParser.MergeByDescent | src/powergslb/server/http/handler/queryparser.py:144-154 | The descending loop over references, errors included, equals the recursive merge of the branch into the tree |
| QueryParser.MergeKeepsFilled | src/powergslb/server/http/handler/queryparser.py:144-154 | Merging never leaves an empty dictionary behind |
| QueryParser.ParsedIsFilled | src/powergslb/server/http/handler/queryparser.py:84 | Normalising never meets an empty dictionary, so taking its first key cannot fail |
| QueryParser.ParseQueryByLoops | src/powergslb/server/http/handler/queryparser.py:129-155 | The loops over pairs and tree levels compute the specified parse, errors included |
| QueryLists.RepeatedKeysCollect | src/powergslb/server/http/handler/queryparser.py:129-155 | A repeated key, plain or with empty brackets, gives its values in order, one alone and several as a list, numbers under empty brackets as ints; it fails exactly when such a number is one that int() refuses |
| QueryLists.NumbersUnderBrackets | src/powergslb/server/http/handler/queryparser.py:122-125 | Printed integers under empty brackets come back as integers, and under a plain key as text |
| QueryLists.TextsUnderBrackets | src/powergslb/server/http/handler/queryparser.py:123-125 | Text that is no number stays text under empty brackets |
| QueryLists.BlanksAreDropped | src/powergslb/server/http/handler/queryparser.py:142 | A pair with a blank value changes nothing |
| QueryLists.QuotesAreDropped | src/powergslb/server/http/handler/queryparser.py:13-27 | Surrounding quotes are not part of a bracketed key, whatever follows it |
| QueryRoundTrip.KeyTextParses | src/powergslb/server/http/handler/queryparser.py:39-47 | A printed key is plain text that reads back as the same list index or name |
| QueryRoundTrip.SignedDecimalParses | src/powergslb/server/http/handler/queryparser.py:39-47 | Negative and plus-signed decimals read back as the same integer |
| QueryRoundTrip.GroupsLeft | src/powergslb/server/http/handler/queryparser.py:50-67 | A second bracket group is seen exactly when the path has a second key |
| QueryRoundTrip.PrintedKeyParses | src/powergslb/server/http/handler/queryparser.py:99-126 | A printed bracketed key parses back to the branch of its path |
| QueryRoundTrip.MergeSubtree | src/powergslb/server/http/handler/queryparser.py:143-154 | Merging the printed leaves of an object depth first builds its tree under its key and leaves the rest alone |
| QueryRoundTrip.ItemComesBack | src/powergslb/server/http/handler/queryparser.py:70-96 | Normalising gives an object back exactly when no list stands directly inside a list |
| QueryRoundTrip.RoundTrip | src/powergslb/server/http/handler/queryparser.py:70-155 | Parsing the printed form of any printable object returns that object exactly when no list stands directly inside a list |
| QueryRoundTrip.ListInListIsLost | src/powergslb/server/http/handler/queryparser.py:82-89 | One family of inputs: a text in a list inside a list comes back in a dictionary keyed 0 inside the list |
| QueryFailures.MergeBlocks | src/powergslb/server/http/handler/queryparser.py:143-154 | A merged branch blocks exactly the paths that go on behind its end, besides those blocked before |
| QueryFailures.MergeFailsWhenBlocked | src/powergslb/server/http/handler/queryparser.py:146-154 | Only a blocked branch fails to merge, with an access error; a blocked one without list indices always fails |
| QueryFailures.HelperErrors | src/powergslb/server/http/handler/queryparser.py:99-126 | A pair's key fails as malformed, or by a digit in key or value that isdigit() accepts and int() refuses, and in no other way |
| QueryFailures.UnclosedIsMalformed | src/powergslb/server/http/handler/queryparser.py:118-121 | A key whose first bracket is never closed is malformed, with a name before it or without |
| QueryFailures.IndexAssigns | src/powergslb/server/http/handler/queryparser.py:149-154 | An index into a collected list replaces that element, from the end if negative, and fails outside the list |
| QueryFailures.ParseFails | src/powergslb/server/http/handler/queryparser.py:129-155 | A parse fails with the error of the first pair whose key does not parse, or with an access error on two earlier pairs of which one ends where the later one goes on; without list indices exactly on such a clash |
| QueryFailures.ValueThenDictionaryFails | src/powergslb/server/http/handler/queryparser.py:146-154 | One family of inputs: the pairs (a, x), (a[b], y) fail with an access error, not as a malformed key |

## Left out

- HTTP servers, TLS, compression, authentication, static files and the admin JavaScript: input and output around the modelled logic.
- Probe bodies: a check is a source of outcomes (success, failure, exception).
- Parsing of view rules, policies and checks from text, their field validation and the subclass registries: a rule or policy is given compiled, or as text that does not compile.
- The GeoIP database and the blake2b digest: arbitrary fixed functions.
- `getAllDomains`, the request dispatcher and the header parsing with its fallbacks: they would add only easy members.
- ZoneLookup.ReturnedNameIsQueried: the collation is an equality of single characters; contractions and padding with spaces are not modelled.
- LikePatterns.PatternIsExact: the collation is an equality of single characters, so contractions are not modelled.
- Grid.PagesTile: all pages are read from one state of the table; negative limits and offsets, which the server rejects, are not modelled. How a search value converts and how cells compare are parameters.
- RecordsTable.RecordsFastPath: between the page query and its join rows may be deleted but not changed.
- Monitor.MonitorManager.Reconcile: nothing else moves while the methods of the object run, except that waited-for threads may stop; interleaving is the subject of MonitorRuns.
- MonitorRuns.BetweenReconciles: dictionaries are walked in any order, and the check list read from the database is the given desired map.
- Monitor.StopThreads: a wait lasts at most its timeout and nothing else takes time.
- Database.MySQLDatabase.Run: sessions and the server's stored data are values held by the connection object; transactions of other connections run before or after, never between.
- Database.Transact: a block is a list of statements that stops at the first failure; blocks that catch an error and go on are covered statement by statement by `Run` and `Leave`.
- Audit.Perform: the user and records tables are left out (a masked password, a row spread over two tables and triggers), and so are the user, address, action and JSON text of a trail row; `scheme.sql` is not part of this model. A posted key that is missing and one that is no integer are one and the same error.
- Audit.PerformAll: rollbacks are not rejected by a living session; `Leave` says exactly what becomes durable when one is. An interrupt hits between statements; one inside a driver call counts as before or after it.
- QueryParser.ParseQueryByLoops: starts from the decoded key and value pairs; percent-decoding and splitting are library calls. Python's limit on the number of digits that `int()` reads is not modelled. Containers are values, and the descent keeps the containers above it where Python keeps references.
- PowerDns.PowerDNSRequestHandler.GetLookup: logging is not modelled.
