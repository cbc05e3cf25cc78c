# FreeAgent sync engine, modelled in Dafny

This project models the core of `src/FA_Sync_Engine.js`. That script is a
Google Apps Script job. It pulls bank transactions from the FreeAgent
accounting API. It drops the transactions whose ids the `Raw_Data` tab already
holds. It classifies the rest with the rules of the `Mapping` tab and appends
them to `Raw_Data` in one batch. Then it writes the live cash total of the
active accounts to the Dashboard.

The model is pure functions over immutable data:

- `Text` holds the string primitives the script relies on:
  - ECMAScript `trim`;
  - ASCII lower-casing;
  - `includes`;
  - the global `*` replacement;
  - `url.split('/').pop()`.
- `Records` holds the entities:
  - sheets as `seq<seq<string>>`;
  - accounts and account listings;
  - raw API records and their pages;
  - stamped transactions;
  - ledger rows.
- `MappingRules` holds `getMappingRules` (`ParseRules`) and the classifier lifted out of `runSync` (`Classify`).
- `Ledger` holds `getExistingIds` (`ExistingIds`) and the batched append (`Append`).
- `Fetch` holds `getFreeAgentData`. HTTP is replaced by a page oracle, a map from account URL to that account's pages. A page is either the records a reply served or a request that threw. A page beyond the end of the list comes back empty.
- `Sync` holds the body of `runSync` once the transactions are fetched (`Process`), with the dedup filter and classification loop (`NewRows`).
- `Balance` holds `updateCashBalance` over whole minor units.
- `Engine` holds one whole `runSync` over a remote state and a workbook.

What each operation is proved against:

| operation | proved against |
|---|---|
| the dedup loop | a filter-then-classify reference |
| pagination | the concatenation of the pages up to the first short one |
| the account loop | its split over two runs of accounts, and the abort that skips the rest |
| the append | the id set the next run reads back |
| the whole run | idempotence |

Three behaviours of the code are stated as lemmas, because they bound the promises above:

- A transaction fetched twice in one run is appended twice. The id set is read once, before the loop.
- On a `Raw_Data` tab without a header row, the first appended row is skipped by the id read. The next run appends that row again.
- A transaction whose URL ends in `/` gets the empty id. It is appended on every run.

The idempotence lemmas therefore assume a header row and non-empty fetched ids. The uniqueness lemmas assume pairwise distinct fetched ids, and what they keep is that no two rows below row 1 share a non-empty id. Row 1 and the empty id are outside that promise, as the last two behaviours show.

Fetch failures follow the shape of the code. One `try` wraps the whole account loop (`src/FA_Sync_Engine.js:144-186`). The first exception therefore ends the fetch for every remaining account, and what was pushed before it is kept. The requests pass `muteHttpExceptions: true` (lines 146 and 160), so an HTTP error status does not throw. Its JSON body has no `bank_transactions` field, the `|| []` default (line 161) makes it an empty page, and an empty page ends only that account. An exception comes from a transport failure, a body that is not JSON, or a record without a `url` (line 167). The model follows the code: `Fetch.BadPageAborts`, `Fetch.FailureEndsAccountLoop` and `Fetch.AbortSkipsLaterAccounts`.

## Model

| member | source | states |
|---|---|---|
| Text.TrimSpec | src/FA_Sync_Engine.js:103 | the trimmed key is a contiguous slice of the cell. Only whitespace or line terminators were cut from either end, and it neither starts nor ends with one |
| Text.RemoveStars | src/FA_Sync_Engine.js:108-109 | removing every `*` leaves no `*` and keeps every other character with its multiplicity: the result's multiset is the key's with the `*` count set to zero. A key without `*` is returned as it was |
| Text.RemoveStarsAppend | src/FA_Sync_Engine.js:108-109 | the global replacement acts on each part of a split key independently |
| Text.Lower | src/FA_Sync_Engine.js:45 | lower-casing keeps the length, maps each character on its own, and leaves no upper-case ASCII letter |
| Text.Includes | src/FA_Sync_Engine.js:50 | substring test: true exactly when the keyword occurs at some position of the description. The empty keyword occurs in every description |
| Text.LastSegmentSpec | src/FA_Sync_Engine.js:167 | the derived id holds no `/`, ends the URL, and is either the whole URL or preceded by a `/` |
| Text.LastSegmentOfPath | src/FA_Sync_Engine.js:167 | the id of `prefix/seg` is `seg` whenever `seg` holds no `/` |
| MappingRules.KeywordRuleCount | src/FA_Sync_Engine.js:106-111 | one keyword rule per rule row whose trimmed key starts with `*` |
| MappingRules.KeywordRuleOrder | src/FA_Sync_Engine.js:102-111 | keyword rules keep row order. A keyword row lands after every earlier keyword row's rule. Its rule has keyword = key without `*`, lower-cased; label `Auto: ` + key without `*`; and the row's department |
| MappingRules.ExactRuleKeys | src/FA_Sync_Engine.js:112-114 | a name is an exact key exactly when some non-keyword row has that trimmed key |
| MappingRules.ExactRuleLastWins | src/FA_Sync_Engine.js:112-114 | for a repeated key the last such row's department wins |
| MappingRules.ParseRowsKeywordsAppend | src/FA_Sync_Engine.js:102-111 | parsing two runs of rows gives the two runs' keyword rules, upper run first |
| MappingRules.ParseRowsExactAppend | src/FA_Sync_Engine.js:102-115 | parsing two runs of rows unions their exact maps, the lower run's entries overriding the upper run's |
| MappingRules.ParseRules | src/FA_Sync_Engine.js:97-117 | a table with at most a header row yields no rules |
| MappingRules.ParseRulesSkipsHeader | src/FA_Sync_Engine.js:102 | row 0 is skipped whatever it holds |
| MappingRules.FirstMatch | src/FA_Sync_Engine.js:49-57 | the loop stops at the first rule, in order, whose keyword the description includes, or reports that none does |
| MappingRules.Classify | src/FA_Sync_Engine.js:42-63 | keyword match iff some keyword occurs in the lower-cased description (null read as empty); then the first such rule gives category and department. Otherwise a non-empty category name with a non-empty exact department gives that pair. Otherwise `Uncategorised` / `General Administrative` |
| MappingRules.EarliestMatchWins | src/FA_Sync_Engine.js:49-56 | when rule i is the first match, the result is rule i's label and department whatever the category name |
| MappingRules.LaterRulesIgnored | src/FA_Sync_Engine.js:49-56 | once some rule matches, appending further keyword rules changes nothing |
| MappingRules.BareStarMatchesEverything | src/FA_Sync_Engine.js:106-111 | a leading bare `*` row yields the empty keyword, which classifies every description as `Auto: ` with that row's department |
| Ledger.IdsOfSpec | src/FA_Sync_Engine.js:124 | an id is collected exactly when it is non-empty and some row carries it in column 6 |
| Ledger.IdsOfAppend | src/FA_Sync_Engine.js:124 | the ids of two runs of rows are the union of their ids |
| Ledger.ExistingIds | src/FA_Sync_Engine.js:119-126 | fewer than two rows give no ids. Otherwise the set holds exactly the non-empty column-6 values of rows 2 onward: each of them is in it, the empty string never is, and every member is the id of some row below the header |
| Ledger.Append | src/FA_Sync_Engine.js:76-79 | append-only: the old rows stay as they were, the batch follows in order as six-cell rows, and an empty batch writes nothing |
| Ledger.ExistingIdsAfterAppend | src/FA_Sync_Engine.js:119-126 | below a header row, the ids read after an append are the ids before plus the batch's non-empty ids |
| Ledger.AppendKeepsIdsUnique | src/FA_Sync_Engine.js:76-79 | appending pairwise distinct ids that are not yet present keeps no two rows below row 1 sharing a non-empty id |
| Sync.NewRows | src/FA_Sync_Engine.js:36-74 | every batch row has a new id and every new transaction gets its row. The count is at most the row count. The batch is empty iff every fetched id exists |
| Sync.FreshMembers | src/FA_Sync_Engine.js:40 | a transaction survives the filter iff it was fetched and its id is not in the existing set |
| Sync.FreshAppend | src/FA_Sync_Engine.js:39-40 | the filter preserves relative order: filtering two runs gives the two filtered runs, in order |
| Sync.NewRowsIsFilterThenClassify | src/FA_Sync_Engine.js:39-74 | the loop equals filtering out existing ids and then classifying the survivors. One row per survivor, in order, and the auto-classified count is the number of survivors a keyword rule matched |
| Sync.NewRowsComeFromFetched | src/FA_Sync_Engine.js:39-72 | every batch row is the classified row of a fetched transaction with a new id |
| Sync.NewRowsDistinct | src/FA_Sync_Engine.js:39-72 | distinct fetched ids give distinct batch ids |
| Sync.Process | src/FA_Sync_Engine.js:29-84 | nothing fetched leaves the ledger untouched. Otherwise the ledger is the old one followed by rows with new ids; auto-classified ≤ added ≤ fetched; nothing is added iff every fetched id exists |
| Sync.EveryNewTransactionIsAppended | src/FA_Sync_Engine.js:39-79 | each fetched transaction with a new id has its classified row among the appended rows |
| Sync.SecondPassAddsNothing | src/FA_Sync_Engine.js:29-84 | below a header row and with non-empty ids, a second pass on the same transactions adds and writes nothing |
| Sync.PassKeepsIdsUnique | src/FA_Sync_Engine.js:34-79 | with pairwise distinct fetched ids, a ledger in which no two rows below row 1 share a non-empty id keeps that property |
| Sync.RepeatedFetchIsAppendedTwice | src/FA_Sync_Engine.js:34-40 | a transaction fetched twice in one pass is appended twice, repeating its id |
| Sync.HeaderlessLedgerRepeatsRows | src/FA_Sync_Engine.js:119-121 | without a header row the first appended row is not read back, so the next pass appends it again |
| Sync.EmptyIdIsAlwaysAppended | src/FA_Sync_Engine.js:124 | a transaction with the empty id is appended on every pass |
| Fetch.StampAll | src/FA_Sync_Engine.js:166-169 | records with URLs are stamped one for one, in order |
| Fetch.StampAllAppend | src/FA_Sync_Engine.js:166-169 | stamping two runs of records gives the two stamped runs, in order |
| Fetch.StampPage | src/FA_Sync_Engine.js:166-169 | a page is aborted iff some record lacks a URL. The records before the first such record are stamped and kept, and without an abort every record is |
| Fetch.PageIdsAreSegments | src/FA_Sync_Engine.js:158-180 | no id collected from an account's pages holds a `/` |
| Fetch.FullPageRequestsNext | src/FA_Sync_Engine.js:173-178 | a page of 100 or more records is collected whole and the next page is requested |
| Fetch.ShortPageEndsAccount | src/FA_Sync_Engine.js:163-175 | a page of fewer than 100 records, an empty one included, is collected whole and nothing more is requested |
| Fetch.AbortNeedsBadPage | src/FA_Sync_Engine.js:158-180 | an account's fetch aborts only if some page from the first requested one on threw or holds a record without a URL |
| Fetch.BadPageEndsAccount | src/FA_Sync_Engine.js:160-169 | a page that threw, or holds a record without a URL, aborts the account; the records before the bad one are kept, stamped |
| Fetch.ReadsThroughFullPages | src/FA_Sync_Engine.js:158-180 | full pages are read through: the loop returns their records, stamped, in order, followed by what it returns from the next page on |
| Fetch.BadPageAborts | src/FA_Sync_Engine.js:158-180 | a failure, once reached after full pages, aborts the account: the loop returns the full pages' stamped records, then those of the bad page before its bad record, and reports the abort |
| Fetch.ReadsThroughFirstShortPage | src/FA_Sync_Engine.js:152-180 | the loop returns exactly the stamped concatenation of the full pages and the first short page (or all pages when none is short), without an abort |
| Fetch.RunAccountsAbort | src/FA_Sync_Engine.js:144-186 | once an account's outcome has aborted, the outcomes of later accounts change nothing |
| Fetch.RunAccountsAppend | src/FA_Sync_Engine.js:151-182 | without an abort in the first run, the account loop over two runs of outcomes concatenates their transactions |
| Fetch.RunAccountsIdsAreSegments | src/FA_Sync_Engine.js:151-182 | when no account's ids hold a `/`, neither do the ids the loop collects |
| Fetch.WellFormedAccountsNeverAbort | src/FA_Sync_Engine.js:144-186 | when every page of every account is well formed, the account loop never aborts |
| Fetch.FetchedIdsAreSegments | src/FA_Sync_Engine.js:151-182 | no id the account loop collects holds a `/` |
| Fetch.AbortSkipsLaterAccounts | src/FA_Sync_Engine.js:144-186 | once an account's fetch throws, the outcomes of later accounts change nothing |
| Fetch.FailureEndsAccountLoop | src/FA_Sync_Engine.js:144-186 | when the accounts before it ran through and one account's fetch throws, the run returns the earlier accounts' transactions and that account's, reports the abort, and the later accounts add nothing |
| Fetch.FetchAccountsAppend | src/FA_Sync_Engine.js:151-182 | without an abort, fetching two runs of accounts concatenates their transactions, in account order |
| Fetch.GetFreeAgentData | src/FA_Sync_Engine.js:129-188 | no access or a listing that throws gives no transactions, and every returned id is a path segment |
| Balance.CashTotalAppend | src/FA_Sync_Engine.js:207-213 | the cash total of two runs of accounts is the sum of their totals |
| Balance.MissingBalanceCountsAsZero | src/FA_Sync_Engine.js:209-213 | an account without a balance weighs as zero: it can be dropped or set to zero without changing the total |
| Balance.MixedBalancesExample | src/FA_Sync_Engine.js:207-213 | balances of 120.50, none and -30.00 total 90.50 |
| Balance.UpdateCashBalance | src/FA_Sync_Engine.js:191-222 | no access or a listing that throws leaves the cell as it was. Otherwise the cell holds the total of the listed active accounts, zero for none |
| Engine.RunSync | src/FA_Sync_Engine.js:19-93 | the mapping tab is unchanged and Raw_Data only grows, by rows with new ids. Without access nothing changes; the cash cell follows the active accounts |
| Engine.RunSyncTwiceChangesNothing | src/FA_Sync_Engine.js:19-93 | with a header row and non-empty fetched ids, a second run against the same remote state leaves the workbook as the first run left it |
| Engine.RunSyncKeepsIdsUnique | src/FA_Sync_Engine.js:26-90 | with pairwise distinct fetched ids, a Raw_Data tab in which no two rows below row 1 share a non-empty id keeps that property after a run |

## Left out

- OAuth. `getService_` and `src/Auth.js` are not part of this model. Access is a boolean of the remote state, and without it both fetches return nothing.
- HTTP, URL construction and `JSON.parse` are replaced by the page oracle and the account listings:
  - A request or parse that throws is `PageThrew` or `ListingThrew`. Only a transport failure or a body that is not JSON throws there.
  - An HTTP error status is muted (`muteHttpExceptions: true`, lines 146, 160 and 204). Its body lacks the `bank_transactions` or `bank_accounts` field, so it is `Served([])` or `Listed([])`, as is any other reply without that field.
  - The account URL is the oracle key, so `encodeURIComponent` is not modelled.
- The lookback date is not modelled. It comes from the clock and time-zone formatting, so each run's remote state is taken as already restricted to it.
- Console logging, the `onOpen` menu and the spreadsheet range plumbing are left out. Sheets are sequences of rows and the Dashboard cell is an `Option<int>`.
- Cell values are strings. JavaScript coercions of numbers, dates or booleans in cells are not modelled; `String(...)` and the truthiness of a `0` cell are examples.
- `toLowerCase` is modelled on ASCII letters only, because full Unicode case mapping is library data.
- Object keys of the exact map are plain strings. Inherited prototype keys such as `constructor` are not modelled.
- Balance.UpdateCashBalance: balances are whole minor units summed exactly. `parseFloat`, floating-point accumulation and balance strings that parse to `NaN` are not modelled.
- A server that keeps serving full pages makes `while (keepFetching)` (lines 158-180) loop until the script is killed. The page oracle is finite and serves an empty page past its end, so every modelled fetch terminates and this non-termination is not modelled.
- Fetch.GetFreeAgentData: its own contract states only the empty cases and the id shape. The page-by-page and account-by-account behaviour is stated by the lemmas about `Fetch.FetchPages` and `Fetch.FetchAccounts`.
