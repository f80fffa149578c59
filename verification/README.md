# Rank tracker core, modelled in Dafny

This project models the core of a desktop keyword rank tracker. Users file
**domains** under **categories**, give each domain a set of **keywords** and
a set of **search engines**, and ask the tracker to *refresh*. A refresh
queries every engine for every keyword and walks up to 100 results. It
records the first result on one of the domain's pages as a **ranking**
(rank 1..100, or -1 for "not in the first 100"), stamped with the time of
the refresh. The rankings pile up into a history per (keyword, engine)
pair. The summary table shows the latest rank and the last move of every
keyword on every engine, and sorts them when a column header is clicked.

The model follows the program's structure, one module per file:

- `Wrappers`, `Sorted`, `Archive`: option/result types, strictly sorted
  id sequences, and the serialization archive seen as a sequence of fields.
- `Entities`: the identity of every stored record, its hash and its
  serialized form.
- `Engines`: the search-engine registry, `SearchEngineRef` and its
  save/load by id.
- `RankQuery`: one ranking query. It scans each result page for a result
  on the domain, follows the "next" link, and reports progress.
- `DataModel`: categories, keywords, domains (with their engine sets),
  the composite keys and rankings, and their codecs.
- `Store`: the seven tables of the key-value store. Primitive
  get/put/del carry the store's error codes, and the duplicate-sorted
  indices are maps to sets.
- `Provider`: listing and storing categories, domains and keywords,
  including the bulk keyword import.
- `History`: ranking history: store, list, last, best, diff and previous.
- `Cascade`: deleting rankings, keywords, domains and categories together
  with what hangs off them.
- `Transactions`: the provider's one running transaction per thread,
  commit and rollback, and the scoped transaction guard.
- `Progress`: the tracking and offset progress adapters and how they
  compose.
- `Ranking`: the ranking service that refreshes one keyword, one domain,
  or a list of domains.
- `Ordering`: strict weak orders, lexicographic string order, insertion
  sort and reversal. These are the tools the summary table's column sort
  needs.
- `SummaryTable`: the domain summary table's refresh (its provider may
  be absent, and loading the keywords may throw), column layout, cell
  contents and colours, header-click sorting, and index accessors.

The network, the clock and uuid generation are parameters. The web is a
function from a request to a parsed page, the clock gives the refresh
time, and the uuid source gives a fresh id per draw. Every store operation
returns the tables it leaves behind together with the exception it threw,
if any. A transaction is a snapshot of the tables plus a writable flag, and
a full map makes every put fail. The result code of the store's commit is
part of the provider's state, and a non-zero code makes the commit throw.

## Model

| member | source | states |
|---|---|---|
| Archive.ReadClassVersion | src/entity.hh:59-65 | a class record decodes only when its version is 0; any higher version is refused as an unknown serialization version |
| Entities.HashConsistent | src/entity.hh:79-93 | entities that compare equal (same id) hash alike |
| Entities.Load | src/entity.hh:59-65 | decoding refuses versions above 0 and otherwise reads exactly a version 0 and the id |
| Entities.SaveLoad | src/entity.hh:59-65 | loading what was saved gives back the entity and the unread rest |
| Engines.InitSearchEngines | src/engines.cc:402-417 | registering the built-in engines adds google.com and google.uk (whose URL is google.co.uk) and leaves already registered engines as they were |
| Engines.InitIdempotent | src/engines.cc:402-417 | initialising the registry twice is the same as once |
| Engines.SearchEngines | src/engines.cc:419-421 | the registry holds exactly the two built-in engines, each under its own id |
| Engines.SaveRef | src/engines.hh:94-102 | a reference saves only its engine's id, and only in class version 0 |
| Engines.LoadRef | src/engines.hh:104-112 | loading refuses versions above 0 and yields a reference only for a registered id |
| Engines.RefRoundTrip | src/engines.hh:94-112 | loading a saved reference resolves it back to the same registered engine |
| Engines.UnknownIdFails | src/engines.hh:104-112 | loading an id the registry does not know fails with an unknown-engine error |
| RankQuery.IsMyDomain | src/engines.cc:216-218 | a URL belongs to the domain exactly when it starts with the domain name, ignoring case |
| RankQuery.ResultUrl | src/engines.cc:220-269 | a result line yields a URL exactly when its innermost link's href starts with "/url?q=http", ignoring case, and the URL is the href without its 7-character "/url?q=" prefix |
| RankQuery.Scan | src/engines.cc:333-359 | a page scan never counts past 100, and a hit is a URL of the domain found after the counter |
| RankQuery.ScanMeaning | src/engines.cc:333-359 | the scan stops at the first URL of the domain within the first 100 results, all URLs before it are foreign, and a miss counts every result line up to 100 |
| RankQuery.NextLinkChoice | src/engines.cc:120-185 | the next page is the link at position min(2, n-1) of the footer's third block; no such block or link, or an empty link, is a next-link-not-found error |
| RankQuery.Crawl | src/engines.cc:333-388 | a ranked outcome is "not ranked" with no page or a rank above the starting counter on a page of the domain; reports never decrease and stay within 100 |
| RankQuery.PerformRankQuery | src/engines.cc:272-400 | a query reports non-decreasing progress within 0..100, ends with 100 exactly when it produced a ranking, and any rank it produces is valid for the domain |
| RankQuery.QueryMeaning | src/engines.cc:272-400 | a rank a query produces is the position of the first URL of the domain among the result URLs of the pages it read from the engine's search page, or -1 when none of the first 100 is the domain's |
| RankQuery.CrawlMeaning | src/engines.cc:333-388 | a ranked crawl's rank, counted on from the starting counter, is the position of the first URL of the domain among the result URLs of the pages it read, every earlier URL is foreign and the page it reports is that URL; "not ranked" means none of the first 100 minus the counter is the domain's |
| RankQuery.RankAgreesAppend | src/engines.cc:333-388 | a rank that agrees with the URLs after a page of foreign URLs agrees with the whole list, counted from the earlier counter |
| DataModel.InsertEngine | src/data_model.cc:8-10 | inserting an engine adds its id to the domain's set and changes nothing else |
| DataModel.EraseEngine | src/data_model.cc:12-14 | erasing an engine removes its id from the domain's set and changes nothing else |
| DataModel.InsertEraseRestores | src/data_model.cc:8-14 | inserting an engine the domain lacks and erasing it again gives back the domain |
| DataModel.CategoryRoundTrip | src/data_model.hh:28-34 | a category decodes back from its encoding |
| DataModel.KeywordRoundTrip | src/data_model.hh:57-64 | a keyword decodes back from its encoding |
| DataModel.AscendingIds | src/data_model.hh:94-104 | the engine set is written as its ids in ascending order, each once |
| DataModel.EngineSetRoundTrip | src/data_model.hh:94-104 | an engine set of registered engines decodes back from its encoding |
| DataModel.DecodeDomain | src/data_model.hh:94-104 | decoding a domain refuses versions above 0 and yields only registered engines |
| DataModel.DomainRoundTrip | src/data_model.hh:94-104 | a domain with registered engines decodes back from its encoding |
| DataModel.PlainRoundTrips | src/data_model.hh:149-185 | keyword-engine pairs, ranking keys and rankings decode back from their encodings whatever version they are tagged with |
| Store.Classify | src/data_provider.hh:19-52 | a store return code becomes not-found for MDB_NOTFOUND, map-full for MDB_MAP_FULL, and a generic failure carrying the call and code otherwise |
| Store.ClassifyRecovers | src/data_provider.hh:19-52 | a well-formed exception is recovered from its call and code |
| Store.PutRecord | src/data_provider.cc:755-784 | a put fails with EACCES in a read-only transaction and with map-full when the map is full, and otherwise stores the value under the key, leaving other keys alone |
| Store.DelRecord | src/data_provider.cc:786-807 | a delete fails with EACCES in a read-only transaction and with not-found for an absent key, and otherwise removes just that key |
| Store.PutDup | src/data_provider.cc:755-784 | a put into a duplicate index adds the value to that key's duplicates only |
| Store.DelDup | src/data_provider.cc:786-807 | deleting one duplicate removes only that value, and a value that is not there is not-found |
| Store.DelKey | src/data_provider.cc:786-807 | deleting a key of a duplicate index removes all its duplicates and only them |
| Store.PutDelDupRestores | src/data_provider.cc:755-807 | putting a new duplicate and deleting it again gives back the index |
| Store.PutThenGet | src/data_provider.cc:755-828 | after a put, a get of that key gives the value and gets of other keys are unchanged |
| Store.DelThenGet | src/data_provider.cc:786-828 | after a delete, a get of that key is not-found |
| Provider.Categories | src/data_provider.cc:100-121 | the category list starts with the built-in "all domains" category, followed by every stored category once |
| Provider.AllDomains | src/data_provider.cc:143-163 | the domain list holds every stored domain once |
| Provider.DomainsIn | src/data_provider.cc:165-193 | the nil category lists all domains; any other category lists exactly the linked domains whose record is stored, skipping dangling links |
| Provider.Keywords | src/data_provider.cc:237-257 | a domain's keywords are its linked keyword records in id order, stopping at the first linked id that has no record |
| Provider.CountKeywords | src/data_provider.cc:262-274 | the count is the number of linked keyword ids; it equals the size of the domain's set of linked keyword ids, and it is zero exactly when the domain has no links |
| Provider.CountMatchesKeywords | src/data_provider.cc:237-274 | when every link has its record, the count equals the length of the keyword list |
| Provider.StoreCategory | src/data_provider.cc:123-133 | storing a category files it under its id and changes no other table; on a throw nothing changes |
| Provider.StoreDomain | src/data_provider.cc:221-231 | storing a domain files it under its id and changes no other table; on a throw nothing changes |
| Provider.StoreDomainIn | src/data_provider.cc:195-208 | storing a domain in a category stores it and links it to that category, touching no keyword or ranking table |
| Provider.StoreKeyword | src/data_provider.cc:291-300 | storing a keyword files it under its id and changes no other table; on a throw nothing changes |
| Provider.StoreKeywordIn | src/data_provider.cc:279-289 | storing a keyword for a domain stores it and adds exactly that link for that domain |
| Provider.Trim | src/data_provider.cc:302-316 | trimming removes only whitespace from the two ends: the result is a slice of the text with whitespace alone before and after it, and it neither starts nor ends with whitespace |
| Provider.TrimChars | src/data_provider.cc:302-316 | trimming introduces no character: every character of the trimmed text occurs in the original |
| Provider.Lines | src/data_provider.cc:302-316 | the text splits into lines that contain no newline, there are none only for empty text, and joining them with newlines gives the text back less one final newline, as line-by-line reading does |
| Provider.JoinSplit | src/data_provider.cc:302-316 | splitting a text at its newlines and joining the pieces with newlines gives the text back |
| Provider.StoreBulkKeywords | src/data_provider.cc:302-316 | a bulk import succeeds exactly when there is nothing to store or the transaction accepts puts, and never touches domains or rankings |
| Provider.BulkStored | src/data_provider.cc:302-316 | after a successful bulk import every trimmed non-empty line's drawn id is a keyword linked to the domain, holding that line unless a later line drew the same id, and no other keyword appears |
| Provider.BulkValuesJoin | src/data_provider.cc:302-316 | importing clean lines joined by newlines stores exactly those lines, in order |
| History.Dates | src/data_provider.cc:354-378 | a pair's history dates are its indexed dates, ascending and each once |
| History.StoreRanking | src/data_provider.cc:337-352 | storing a ranking files it under (keyword, engine, date) and indexes the date for the pair, changing nothing else; a throw changes nothing |
| History.StoreKeepsIndexed | src/data_provider.cc:337-352 | storing a ranking keeps the rankings table and its date index in agreement |
| History.Rankings | src/data_provider.cc:354-378 | the history lists the pair's rankings in date order, stopping at the first indexed date without a record |
| History.RankingsComplete | src/data_provider.cc:354-378 | with table and index in agreement, the history has one ranking per indexed date |
| History.StoreThenRankings | src/data_provider.cc:337-378 | storing a ranking dated after the whole history appends it to the history |
| History.LastRanking | src/data_provider.cc:406-429 | the last ranking is the record of the pair's latest date, and a pair without history is not-found |
| History.LastIsLastOfRankings | src/data_provider.cc:354-429 | the last ranking exists exactly when the history is non-empty, and it is the history's last element |
| History.DiffRanking | src/data_provider.cc:431-471 | the move is the previous rank minus the last rank, fails with not-found when either is missing or a sentinel, and fills the out-slots only on success |
| History.DiffOfRankings | src/data_provider.cc:354-471 | in terms of the history: with two or more entries, both non-negative, the move is the second-to-last rank minus the last, otherwise not-found |
| History.BestRanking | src/data_provider.cc:473-506 | the best ranking exists exactly when the history is non-empty and is one of its entries |
| History.BestRankingMeaning | src/data_provider.cc:473-506 | the best ranking is the first smallest non-sentinel rank, or the last entry when every rank is the sentinel |
| History.PrevRankingAsWritten | src/data_provider.cc:508-524 | as written, the previous ranking is the record just before the given one in the whole rankings table |
| History.PrevRanking | src/data_provider.cc:508-524 | the previous ranking is the pair's record with the latest date before the given one, or not-found |
| History.PrevIsPrevious | src/data_provider.cc:508-524 | the previous ranking of history entry i is entry i-1 |
| History.PrevCrossesPairs | src/data_provider.cc:508-524 | for a pair's first ranking, as written returns another pair's record while the corrected lookup is not-found |
| Cascade.Sweep | src/data_provider.cc:380-404 | walking a key list deletes the keys up to the first missing one and keeps every other record unchanged |
| Cascade.DeleteRankingsAsWritten | src/data_provider.cc:380-404 | as written, a pair with no history throws not-found; otherwise it behaves as the corrected deletion |
| Cascade.DeleteRankings | src/data_provider.cc:380-404 | deleting a pair's rankings clears its index entry, keeps other pairs' rankings and index entries, and fails only with EACCES in a read-only transaction |
| Cascade.DeleteRankingsClears | src/data_provider.cc:380-404 | with table and index in agreement, no ranking of the pair remains |
| Cascade.DeleteRankingsKeepsIndexed | src/data_provider.cc:380-404 | deleting a pair's rankings keeps table and index in agreement |
| Cascade.DeleteKeywordAsWritten | src/data_provider.cc:318-335 | as written, deleting a keyword in a writable transaction removes its record |
| Cascade.DeleteKeyword | src/data_provider.cc:318-335 | deleting a keyword removes its record in a writable transaction and fails with EACCES in a read-only one |
| Cascade.DeleteKeywordCascade | src/data_provider.cc:318-404 | deleting a linked keyword removes its record, its link and all its rankings on the domain's engines, keeps other keywords' rankings and keeps the index in agreement |
| Cascade.DeleteKeywordAsWrittenLeavesRankings | src/data_provider.cc:318-404 | as written, when the first engine visited has no history, the keyword's rankings on every engine survive its deletion |
| Cascade.DeleteKeywords | src/data_provider.cc:210-219 | deleting a domain's keywords one by one removes exactly those keyword records in a writable transaction, leaves other domains' keyword links and never changes a ranking that remains |
| Cascade.DeleteDomain | src/data_provider.cc:210-219 | deleting a domain removes it in a writable transaction together with exactly the keyword records it lists, throws not-found for an unknown domain, leaves categories alone, and only ever removes rankings and date index entries |
| Cascade.DeleteDomainLinks | src/data_provider.cc:210-219 | deleting a domain removes only keyword links, none of another domain's, and every ranking it leaves keeps its value |
| Cascade.DeleteDomainAsWrittenLeavesRankings | src/data_provider.cc:210-219 | as written, when the first engine of a domain has no history for any of its keywords, deleting the domain removes its keywords but leaves every ranking and date index entry, and throws only for an unknown domain |
| Cascade.DeleteKeywordsAsWrittenLeavesRankings | src/data_provider.cc:318-404 | as written, deleting keywords whose first engine has no history leaves all rankings and date index entries |
| Cascade.DeleteDomainCascade | src/data_provider.cc:210-219 | with `delete_rankings` as intended, deleting a stored domain also removes each of its keywords, their links and their rankings on its engines, keeping the index in agreement; its category links stay |
| Cascade.DeleteCategory | src/data_provider.cc:135-141 | deleting a category removes it and every domain it lists, throws when the category is unknown, and only ever removes keywords, rankings and date index entries |
| Cascade.DeleteDomainsCascade | src/data_provider.cc:135-141 | with `delete_rankings` as intended, deleting a list of stored domains, none sharing a keyword, removes each one's keywords, links and rankings on its engines, keeping the index in agreement |
| Cascade.DeleteCategoryCascade | src/data_provider.cc:135-141 | with `delete_rankings` as intended, deleting a stored category removes it, each of its domains, and each such domain's keywords, links and rankings, keeping the index in agreement |
| Cascade.DeleteCategoryAsWrittenLeavesRankings | src/data_provider.cc:135-141 | as written, when no domain of the category has history on its first engine, deleting the category leaves every ranking and date index entry |
| Transactions.BeginTrans | src/data_provider.cc:729-735 | beginning a transaction starts from the committed tables, dropping any transaction still running |
| Transactions.CommitAsWritten | src/data_provider.cc:737-744 | as written, committing with no running transaction dereferences a null transaction |
| Transactions.Commit | src/data_provider.cc:684-744 | committing publishes a writable transaction's tables when the store's commit succeeds, keeps the committed tables after a read-only or failed one, and is a no-op with none running |
| Transactions.CommitThrown | src/data_provider.cc:684-714 | a commit throws exactly when a transaction is running and the store's commit returns a non-zero code, and the exception carries the commit call and that code |
| Transactions.RollbackAsWritten | src/data_provider.cc:746-753 | as written, rolling back with no running transaction dereferences a null transaction |
| Transactions.Rollback | src/data_provider.cc:746-753 | rolling back ends the transaction and keeps the committed tables |
| Transactions.RollbackDiscards | src/data_provider.cc:729-753 | whatever a transaction did, rolling it back leaves the provider as before it began |
| Transactions.CommitPublishes | src/data_provider.cc:684-744 | committing a writable transaction publishes exactly what it wrote when the store's commit succeeds, keeps the committed tables and throws when it fails, and always ends the transaction |
| Transactions.BeginDropsRunning | src/data_provider.cc:729-735 | a second begin discards the running transaction's writes |
| Transactions.CreateTransaction | src/data_provider.hh:235-245 | a new guard is armed and its provider has begun a transaction |
| Transactions.GuardCommit | src/data_provider.hh:247-253 | an armed guard commits once and disarms; a disarmed one does nothing |
| Transactions.GuardRollback | src/data_provider.hh:255-261 | an armed guard rolls back once and disarms; a disarmed one does nothing |
| Transactions.GuardDestroy | src/data_provider.hh:243-245 | destroying an armed guard rolls back; destroying a disarmed one does nothing |
| Transactions.GuardEndsOnce | src/data_provider.hh:235-262 | after a commit or rollback, further guard calls and the destructor change nothing |
| Transactions.WithTransactionAtomic | src/data_provider.hh:235-262 | a guarded call that throws, from the operation or from the commit, leaves the committed tables untouched; one that does not throw in a writable transaction commits all it wrote |
| Transactions.NestedGuardsNullRollback | src/data_provider.hh:235-262 | with two nested guards, once the inner one commits, the outer destructor's rollback as written dereferences a null transaction, while as intended it is ignored |
| Progress.TrackAll | src/progress.hh:14-35 | after a run of reports, the tracker holds the last one and has forwarded all of them in order |
| Progress.RunChild | src/progress.hh:14-53 | a child behind an offset adapter built on the current total adds its last report to the total |
| Progress.RunChildrenTotal | src/progress.hh:14-53 | children that each end at 100 raise the total by exactly 100 per child |
| Progress.RunChildrenMonotone | src/progress.hh:14-53 | across children that stay within 0..100, forwarded progress never goes down and never exceeds the start plus 100 per child |
| Progress.NestedChild | src/progress.hh:14-53 | nesting a tracked child inside a parent adds the child's total to the parent's |
| Ranking.EngineLoopFresh | src/ranking.cc:11-36 | the per-engine loop changes only rankings of this keyword on these engines at this date, and only to rankings a query for the domain may produce |
| Ranking.EngineLoopCovers | src/ranking.cc:11-36 | when the per-engine loop ends without error, every engine has a ranking stored for the keyword at this date |
| Ranking.EngineLoopProgress | src/ranking.cc:11-36 | the per-engine loop's progress never goes down and stays within 100 per engine |
| Ranking.RefreshKeywordStores | src/ranking.cc:11-36 | refreshing a keyword changes only its rankings on the domain's engines at the refresh date, each one a query for the domain may produce, and when nothing goes wrong every engine has one |
| Ranking.RefreshKeywordProgress | src/ranking.cc:11-36 | refreshing a keyword reports progress from 0 up to 100 per engine, never going back |
| Ranking.RefreshDomainStores | src/ranking.cc:38-53 | refreshing a domain, when nothing goes wrong, stores a ranking for each keyword on each engine and changes nothing but such rankings |
| Ranking.RefreshDomainProgress | src/ranking.cc:38-53 | refreshing a domain reports progress up to 100 per query, reaching exactly that when nothing goes wrong |
| Ranking.RefreshAllStores | src/ranking.hh:56-69 | refreshing a list of domains changes only rankings, plausibly, covers every keyword of every domain when nothing goes wrong, and reports progress from 0 up to 100 per query |
| Ordering.LexStrictWeak | src/domain_summary_table.cc:18-20 | string order is a strict weak order |
| Ordering.SortSorted | src/domain_summary_table.cc:320-357 | sorting by a strict weak order puts the keywords in order |
| Ordering.ToggleMeaning | src/domain_summary_table.cc:320-357 | a header click permutes the rows: unsorted rows end sorted ascending, and rows already sorted end reversed, which is descending |
| Ordering.ToggleTwice | src/domain_summary_table.cc:320-357 | two clicks on an unsorted column give the descending order |
| SummaryTable.CppParity | src/domain_summary_table.cc:197-238 | the C++ remainder truncates toward zero: it has the dividend's sign, unlike Dafny's, which is never negative |
| SummaryTable.LoadKeywords | src/domain_summary_table.cc:107-116 | the keywords are read in a read-only guarded transaction: they are the domain's keywords in the committed tables when the commit succeeds, the commit's error otherwise, and either way the transaction ends and nothing is published |
| SummaryTable.RefreshView | src/domain_summary_table.cc:94-124 | with no domain only the engine list is cleared; otherwise there are 2 columns per engine plus one, and the rows are the domain's keywords when the load succeeds, none with an alert naming the domain when it throws, and none when the table has no provider |
| SummaryTable.RefreshTwice | src/domain_summary_table.cc:94-124 | refreshing again with nothing changed in between gives the same table, alert and provider |
| SummaryTable.RefreshRowsCount | src/domain_summary_table.cc:107-120 | when every linked keyword is stored and the load succeeds, the table has one row per keyword id linked to the domain |
| SummaryTable.ColumnLayout | src/domain_summary_table.cc:168-238 | column 0 shows the keyword, column 2i+1 the rank and 2i+2 the move on engine i, the rest are blank, and body cells agree with the header |
| SummaryTable.Band | src/domain_summary_table.cc:205-218 | a rank is painted white for the -1 "not in the first 100" sentinel, green up to 10, yellow up to 30 and orange beyond |
| SummaryTable.BandMonotone | src/domain_summary_table.cc:205-218 | a better rank never gets a worse colour band |
| SummaryTable.RankView | src/domain_summary_table.cc:197-218 | a rank cell shows N/A when there is no ranking, ">100" for the sentinel and the number otherwise |
| SummaryTable.DiffView | src/domain_summary_table.cc:224-237 | a move cell shows a dash when there is no move, green ink for an improvement and red for a loss |
| SummaryTable.RankCellShowsLatest | src/domain_summary_table.cc:197-218 | a rank cell shows the last entry of the pair's history, or N/A for an empty one |
| SummaryTable.DiffCellShowsMove | src/domain_summary_table.cc:224-237 | a move cell shows the second-to-last rank minus the last when both exist and are non-negative, or a dash |
| SummaryTable.RankBeforeTiers | src/domain_summary_table.cc:38-60 | the rank comparator puts found ranks first, ascending, then sentinel ranks, then keywords with no ranking |
| SummaryTable.OrderStrictWeak | src/domain_summary_table.cc:18-86 | the name, rank and move comparators are strict weak orders, as the sort requires |
| SummaryTable.ClickKey | src/domain_summary_table.cc:320-357 | column 0 sorts by name, odd columns by rank on their engine and even columns by move |
| SummaryTable.HeaderClick | src/domain_summary_table.cc:320-357 | a header click reorders only the keywords |
| SummaryTable.HeaderClickSorts | src/domain_summary_table.cc:320-357 | a click permutes the keywords: rows not yet in the clicked column's order end in it, and rows already in it end in the reverse order |
| SummaryTable.HeaderClickTwice | src/domain_summary_table.cc:320-357 | two clicks on an unsorted column sort it descending |
| SummaryTable.RankSortedMeaning | src/domain_summary_table.cc:38-60 | rows sorted by rank list found ranks ascending before sentinels before missing rankings |
| SummaryTable.DiffSortedMeaning | src/domain_summary_table.cc:69-86 | rows sorted by move have non-decreasing moves, with -1 for a missing move |
| SummaryTable.EngineAt | src/domain_summary_table.cc:370-376 | an engine index in range gives that engine, and any other index is refused as invalid |
| SummaryTable.KeywordAtAsWritten | src/domain_summary_table.cc:362-368 | as written, an index past the end passes the guard and reads out of range, while a negative index is still refused through the `size_t` conversion |
| SummaryTable.KeywordAt | src/domain_summary_table.cc:362-368 | a keyword index in range gives that keyword, and any other index is refused as invalid |
| SummaryTable.KeywordAtReadsPastEnd | src/domain_summary_table.cc:362-368 | at index equal to the row count, as written reads out of range where the corrected accessor refuses |

## Left out

- Network and HTML: the HTTP client, URL escaping and HTML parsing are not modelled. The web is a function parameter from a request to a page of result nodes.
- RankQuery.Crawl: the source follows "next" links for as long as pages lack result lines. The model bounds the walk by a fuel parameter, and running out of fuel is an explicit outcome. The source can loop forever on such pages, and the model does not show that.
- Clock and uuids: the current time and fresh ids are parameters. Timestamps are whole seconds.
- Timestamp order: the store sorts the encoded timestamps of a history by their bytes. The model orders them by value, so it assumes those two orders agree.
- Engine iteration order: an engine set is an unordered set in the source, with unspecified iteration order. The model visits engines in ascending id order. This matters for the Cascade lemmas named AsWrittenLeavesRankings, whose "first engine" is the first in that order.
- Ordering.Sort: `std::sort` is unstable and does not specify the order of equivalent elements. The model uses insertion sort, which is one admissible outcome. Contracts about a header click state the sort order and the permutation, not which of several equivalent orders results.
- String order: strings are compared by code point. This agrees with the byte order of UTF-8.
- Store environment: opening the store, creating tables, resizing the map and a failing transaction begin are not modelled. A full map is a flag that makes every put fail, and the result code of the store's commit is a field of the provider, so a failed commit is modelled.
- Cascade.DeleteDomainsCascade and Cascade.DeleteCategoryCascade assume no keyword id is linked to two domains. Keyword ids are fresh uuids drawn per domain, so the store never shares one, but the model does not prove that of every reachable store.
- Logging, the preferences file and the application support folder are not modelled. They carry no logic the core depends on.
- Summary table drawing: FLTK drawing, the selection colour, the row-header date marker (src/domain_summary_table.cc:135-167) and column widths (src/domain_summary_table.cc:255-293) are not modelled. Cell contents and colours are. The alert a failed keyword load raises is modelled as its message text, not as a dialog.
- Threads: the provider's per-thread transaction is modelled for one thread. Concurrent refreshes are not modelled.
- Integer widths: rank arithmetic stays within -1..100, so no wrap-around is modelled. The one conversion that matters, the signed index compared with `size_t` in the keyword accessor, is written out.
- History.DiffRanking: the source also throws not-found when either of the last two ranks is the sentinel -1, not only when fewer than two rankings exist. The model follows the code.
- Ranking.RefreshAllStores: it states that every changed ranking is plausible (right date, and a rank of -1 or 1..100). It does not say which domain's page the ranking points to, because that depends on which domain of the list wrote it. The per-domain lemmas state the stronger, domain-specific property.

## Findings

| source | as written | input that shows it | evidently intended | confidence | as-written member | corrected member |
|---|---|---|---|---|---|---|
| src/data_provider.cc:380-404 | `delete_rankings` positions its cursor with MDB_SET outside the try block, so a pair with no history throws not-found. `deleteKeyword` catches that and stops, skipping the remaining engines | a keyword with rankings on its second engine but none on its first; deleting its domain or its category leaves the rankings the same way | a pair without history is a no-op, and every engine's rankings are deleted | not executed | Cascade.DeleteKeywordAsWrittenLeavesRankings | Cascade.DeleteKeywordCascade |
| src/data_provider.cc:737-753 | `commit` and `rollback` log that a missing transaction will be ignored, then dereference the null transaction anyway | an outer guard destroyed after an inner guard has committed, if the store lets one thread begin a nested transaction (its environment flags are not part of this model) | with no running transaction, commit and rollback do nothing | not executed | Transactions.NestedGuardsNullRollback | Transactions.Rollback |
| src/domain_summary_table.cc:362-368 | `keyword(idx)` refuses an index only when it is negative AND, once converted to `size_t`, at or past the end. A negative index converts to a huge value and is refused, but an index equal to the row count, or past it, passes | idx equal to the number of keywords | refuse an index that is negative OR past the end | not executed | SummaryTable.KeywordAtReadsPastEnd | SummaryTable.KeywordAt |
| src/data_provider.cc:508-524 | `prev_ranking` steps the cursor of the whole rankings table one key back, which can land on another keyword's or engine's ranking | the first ranking of a pair when another pair's ranking sorts just before it | the latest ranking of the same pair dated before the given one, or not-found | not executed | History.PrevCrossesPairs | History.PrevRanking |
