/**
 `getFreeAgentData` without HTTP. The accounting service is a page oracle:
 for every account, the finite sequence of replies its transaction pages
 give, page 1 first; a page beyond the end of that sequence comes back
 empty. One `try` wraps the whole account loop, so the first exception,
 wherever it is thrown, ends the fetch and keeps what was collected so far.
 */
module Fetch {
  import opened Text
  import opened Records

  /** `per_page=100`: a page with fewer records is the last one. */
  const PageSize: nat := 100

  /** `tx.id = tx.url.split('/').pop()` on a record that has a URL. */
  function Stamp(raw: RawTx): Tx
    requires raw.url.Some?
  {
    Tx(LastSegment(raw.url.value), raw.datedOn, raw.description, raw.amount, raw.categoryName)
  }

  /** Every record of `raws` has a URL. */
  predicate AllHaveUrls(raws: seq<RawTx>) {
    forall k :: 0 <= k < |raws| ==> raws[k].url.Some?
  }

  /** The stamped transactions of records that all have URLs. */
  function StampAll(raws: seq<RawTx>): (txs: seq<Tx>)
    requires AllHaveUrls(raws)
    ensures |txs| == |raws|
    ensures forall k :: 0 <= k < |raws| ==> txs[k] == Stamp(raws[k])
  {
    seq(|raws|, k requires 0 <= k < |raws| => Stamp(raws[k]))
  }

  /**
   The transaction pages the service serves, by the account URL they are
   requested with (`bank_account=` in the query); page 1 first.
   */
  type PageOracle = map<string, seq<Page>>

  /** The pages of one account; an account the oracle does not know serves an empty page 1. */
  function PagesFor(oracle: PageOracle, account: Account): seq<Page> {
    if account.url in oracle then oracle[account.url] else []
  }

  /** What a fetch collected, and whether an exception cut it short. */
  datatype Fetched = Fetched(txs: seq<Tx>, aborted: bool)

  /** No collected transaction id contains a `/`. */
  ghost predicate IdsAreSegments(txs: seq<Tx>) {
    forall k :: 0 <= k < |txs| ==> '/' !in txs[k].id
  }

  /**
   The `forEach` over one page: each record is stamped and pushed in turn.
   A record without a URL makes `split` throw; the records before it have
   already been pushed and stay collected.
   */
  function StampPage(raws: seq<RawTx>): (r: Fetched)
    ensures r.aborted <==> !AllHaveUrls(raws)
    ensures |r.txs| <= |raws|
    ensures forall k :: 0 <= k < |r.txs| ==> raws[k].url.Some? && r.txs[k] == Stamp(raws[k])
    ensures !r.aborted ==> |r.txs| == |raws|
    ensures r.aborted ==> |r.txs| < |raws| && raws[|r.txs|].url.None?
    decreases |raws|
  {
    if |raws| == 0 then Fetched([], false)
    else if raws[0].url.None? then Fetched([], true)
    else
      var rest := StampPage(raws[1..]);
      assert AllHaveUrls(raws) <==> AllHaveUrls(raws[1..]) by {
        assert forall k :: 0 <= k < |raws| - 1 ==> raws[1..][k] == raws[k + 1];
        if AllHaveUrls(raws[1..]) {
          forall k | 0 <= k < |raws| ensures raws[k].url.Some? {
            if k > 0 { assert raws[k] == raws[1..][k - 1]; }
          }
        }
      }
      Fetched([Stamp(raws[0])] + rest.txs, rest.aborted)
  }

  /**
   The `while (keepFetching)` loop of one account, from page `k + 1` on. An
   empty page stops it, a short page is collected and stops it, a full page
   is collected and the next page is requested.
   */
  function FetchPages(pages: seq<Page>, k: nat): Fetched
    decreases |pages| - k
  {
    if k >= |pages| then Fetched([], false)
    else match pages[k]
      case PageThrew => Fetched([], true)
      case Served(raws) =>
        if |raws| == 0 then Fetched([], false)
        else
          var stamped := StampPage(raws);
          if stamped.aborted || |raws| < PageSize then stamped
          else
            var rest := FetchPages(pages, k + 1);
            Fetched(stamped.txs + rest.txs, rest.aborted)
  }

  /** Every id collected from an account's pages holds no `/`. */
  lemma {:induction false} PageIdsAreSegments(pages: seq<Page>, k: nat)
    ensures IdsAreSegments(FetchPages(pages, k).txs)
    decreases |pages| - k
  {
    if k < |pages| && pages[k].Served? {
      var raws := pages[k].records;
      var stamped := StampPage(raws);
      forall m | 0 <= m < |stamped.txs| ensures '/' !in stamped.txs[m].id {
        LastSegmentSpec(raws[m].url.value);
      }
      if |raws| >= PageSize {
        PageIdsAreSegments(pages, k + 1);
      }
    }
  }

  /** The records of a page, none for a page that threw. */
  function RecordsOf(page: Page): seq<RawTx> {
    match page
    case Served(raws) => raws
    case PageThrew => []
  }

  /** All records of `pages`, page by page. */
  function Concat(pages: seq<Page>): seq<RawTx>
    decreases |pages|
  {
    if |pages| == 0 then [] else RecordsOf(pages[0]) + Concat(pages[1..])
  }

  /** A page that is served whole and asks for a successor: 100 records or more, all with URLs. */
  predicate IsFullPage(page: Page) {
    page.Served? && |page.records| >= PageSize && AllHaveUrls(page.records)
  }

  /** A page that is served whole and ends the account: fewer than 100 records, all with URLs. */
  predicate IsLastPage(page: Page) {
    page.Served? && |page.records| < PageSize && AllHaveUrls(page.records)
  }

  /** Stamping distributes over concatenation. */
  lemma StampAllAppend(a: seq<RawTx>, b: seq<RawTx>)
    requires AllHaveUrls(a) && AllHaveUrls(b)
    ensures AllHaveUrls(a + b)
    ensures StampAll(a + b) == StampAll(a) + StampAll(b)
  {
  }

  /** A page of 100 records or more is collected whole, and page `k + 2` is requested next. */
  lemma FullPageRequestsNext(pages: seq<Page>, k: nat)
    requires k < |pages| && IsFullPage(pages[k])
    ensures FetchPages(pages, k)
      == Fetched(StampAll(pages[k].records) + FetchPages(pages, k + 1).txs, FetchPages(pages, k + 1).aborted)
  {
  }

  /** A page of fewer than 100 records is collected whole and ends the account; an empty page adds nothing. */
  lemma ShortPageEndsAccount(pages: seq<Page>, k: nat)
    requires k < |pages| && IsLastPage(pages[k])
    ensures FetchPages(pages, k) == Fetched(StampAll(pages[k].records), false)
  {
  }

  /** A page that is served whole and holds records with URLs only. */
  predicate IsWellFormed(page: Page) {
    page.Served? && AllHaveUrls(page.records)
  }

  /**
   An account's fetch is cut short only by a page that threw or a record
   without a URL.
   */
  lemma {:induction false} AbortNeedsBadPage(pages: seq<Page>, k: nat)
    ensures FetchPages(pages, k).aborted ==> exists m :: k <= m < |pages| && !IsWellFormed(pages[m])
    decreases |pages| - k
  {
    if k < |pages| && pages[k].Served? && |pages[k].records| >= PageSize && AllHaveUrls(pages[k].records) {
      AbortNeedsBadPage(pages, k + 1);
    }
  }

  /** Appending transactions is associative. */
  lemma AppendAssoc(a: seq<Tx>, b: seq<Tx>, c: seq<Tx>)
    ensures a + (b + c) == (a + b) + c
  {
  }

  /** The records of a run of pages that split into a first page and the rest. */
  lemma ConcatCons(pages: seq<Page>, k: nat, end: nat)
    requires k < end <= |pages|
    ensures Concat(pages[k..end]) == RecordsOf(pages[k]) + Concat(pages[k + 1..end])
  {
  }

  /**
   Pagination against a reference: when pages `k + 1` to `n` are full and
   page `n + 1` is short or past the end, the loop reads exactly those pages
   and returns all of their records, stamped, in order, without an abort.
   */
  lemma {:induction false} ReadsThroughFirstShortPage(pages: seq<Page>, k: nat, n: nat)
    requires k <= n <= |pages|
    requires forall m :: k <= m < n ==> IsFullPage(pages[m])
    requires n == |pages| || IsLastPage(pages[n])
    ensures AllHaveUrls(Concat(pages[k..if n < |pages| then n + 1 else n]))
    ensures FetchPages(pages, k) == Fetched(StampAll(Concat(pages[k..if n < |pages| then n + 1 else n])), false)
    decreases n - k
  {
    var end := if n < |pages| then n + 1 else n;
    if k == n {
      if n < |pages| {
        ConcatCons(pages, k, end);
        assert pages[k + 1..end] == [];
        assert Concat(pages[k..end]) == pages[k].records;
        ShortPageEndsAccount(pages, k);
      } else {
        assert pages[k..end] == [];
      }
    } else {
      ReadsThroughFirstShortPage(pages, k + 1, n);
      var raws := pages[k].records;
      var tail := Concat(pages[k + 1..end]);
      ConcatCons(pages, k, end);
      FullPageRequestsNext(pages, k);
      StampAllAppend(raws, tail);
    }
  }

  /** A page that threw, or holds a record without a URL, aborts the account after keeping the records before that record. */
  lemma BadPageEndsAccount(pages: seq<Page>, k: nat)
    requires k < |pages| && !IsWellFormed(pages[k])
    ensures FetchPages(pages, k) == Fetched(StampPage(RecordsOf(pages[k])).txs, true)
  {
    if pages[k].Served? {
      assert StampPage(pages[k].records).aborted;
    } else {
      assert StampPage([]) == Fetched([], false);
    }
  }

  /**
   Full pages are read through: when pages `k + 1` to `n` are full, the loop
   returns their records, stamped, in order, followed by whatever it returns
   from page `n + 1` on.
   */
  lemma {:induction false} ReadsThroughFullPages(pages: seq<Page>, k: nat, n: nat)
    requires k <= n <= |pages|
    requires forall m :: k <= m < n ==> IsFullPage(pages[m])
    ensures AllHaveUrls(Concat(pages[k..n]))
    ensures FetchPages(pages, k)
      == Fetched(StampAll(Concat(pages[k..n])) + FetchPages(pages, n).txs, FetchPages(pages, n).aborted)
    decreases n - k
  {
    if k == n {
      assert pages[k..n] == [];
      assert StampAll([]) == [];
    } else {
      ReadsThroughFullPages(pages, k + 1, n);
      var raws := pages[k].records;
      var tail := Concat(pages[k + 1..n]);
      var rest := FetchPages(pages, n).txs;
      ConcatCons(pages, k, n);
      StampAllAppend(raws, tail);
      FullPageRequestsNext(pages, k);
      AppendAssoc(StampAll(raws), StampAll(tail), rest);
    }
  }

  /**
   A failure, once reached, cuts the account short: when pages `k + 1` to `n`
   are full and page `n + 1` threw or holds a record without a URL, the loop
   returns the stamped records of the full pages and those of page `n + 1`
   before the bad record, and reports the abort.
   */
  lemma BadPageAborts(pages: seq<Page>, k: nat, n: nat)
    requires k <= n < |pages|
    requires forall m :: k <= m < n ==> IsFullPage(pages[m])
    requires !IsWellFormed(pages[n])
    ensures AllHaveUrls(Concat(pages[k..n]))
    ensures FetchPages(pages, k) == Fetched(StampAll(Concat(pages[k..n])) + StampPage(RecordsOf(pages[n])).txs, true)
  {
    ReadsThroughFullPages(pages, k, n);
    BadPageEndsAccount(pages, n);
  }

  /** What fetching each account's pages on its own yields, account by account. */
  function AccountOutcomes(accounts: seq<Account>, oracle: PageOracle): (outcomes: seq<Fetched>)
    ensures |outcomes| == |accounts|
    ensures forall i :: 0 <= i < |accounts| ==> outcomes[i] == FetchPages(PagesFor(oracle, accounts[i]), 0)
  {
    seq(|accounts|, i requires 0 <= i < |accounts| => FetchPages(PagesFor(oracle, accounts[i]), 0))
  }

  /**
   The `try` around the account loop, over the accounts' own outcomes:
   their transactions are concatenated in order, and once one outcome
   aborted, the outcomes after it are never reached.
   */
  function RunAccounts(outcomes: seq<Fetched>): Fetched
    decreases |outcomes|
  {
    if |outcomes| == 0 then Fetched([], false)
    else
      var before := RunAccounts(outcomes[..|outcomes| - 1]);
      var last := outcomes[|outcomes| - 1];
      if before.aborted then before else Fetched(before.txs + last.txs, last.aborted)
  }

  /** The account loop inside the `try`. */
  function FetchAccounts(accounts: seq<Account>, oracle: PageOracle): Fetched {
    RunAccounts(AccountOutcomes(accounts, oracle))
  }

  /** The outcomes of two runs of accounts are the two runs' outcomes. */
  lemma AccountOutcomesAppend(a: seq<Account>, b: seq<Account>, oracle: PageOracle)
    ensures AccountOutcomes(a + b, oracle) == AccountOutcomes(a, oracle) + AccountOutcomes(b, oracle)
  {
  }

  /** Once an outcome has aborted, the outcomes after it change nothing. */
  lemma {:induction false} RunAccountsAbort(a: seq<Fetched>, b: seq<Fetched>)
    requires RunAccounts(a).aborted
    ensures RunAccounts(a + b) == RunAccounts(a)
    decreases |b|
  {
    if |b| == 0 {
      assert a + b == a;
    } else {
      assert (a + b)[..|a + b| - 1] == a + b[..|b| - 1];
      RunAccountsAbort(a, b[..|b| - 1]);
    }
  }

  /** Without an abort in the first run, two runs of outcomes concatenate. */
  lemma {:induction false} RunAccountsAppend(a: seq<Fetched>, b: seq<Fetched>)
    requires !RunAccounts(a).aborted
    ensures RunAccounts(a + b) == Fetched(RunAccounts(a).txs + RunAccounts(b).txs, RunAccounts(b).aborted)
    decreases |b|
  {
    var ra := RunAccounts(a);
    if |b| == 0 {
      assert a + b == a;
      assert ra.txs + [] == ra.txs;
    } else {
      var b' := b[..|b| - 1];
      var last := b[|b| - 1];
      assert (a + b)[..|a + b| - 1] == a + b';
      assert (a + b)[|a + b| - 1] == last;
      RunAccountsAppend(a, b');
      var rb' := RunAccounts(b');
      if !rb'.aborted {
        assert (ra.txs + rb'.txs) + last.txs == ra.txs + (rb'.txs + last.txs);
      }
    }
  }

  /** When every outcome's ids hold no `/`, neither do the ids the loop collects. */
  lemma {:induction false} RunAccountsIdsAreSegments(outcomes: seq<Fetched>)
    requires forall i :: 0 <= i < |outcomes| ==> IdsAreSegments(outcomes[i].txs)
    ensures IdsAreSegments(RunAccounts(outcomes).txs)
    decreases |outcomes|
  {
    if |outcomes| > 0 {
      RunAccountsIdsAreSegments(outcomes[..|outcomes| - 1]);
    }
  }

  /** Every id the fetch collects is the last path segment of a URL, so it holds no `/`. */
  lemma FetchedIdsAreSegments(accounts: seq<Account>, oracle: PageOracle)
    ensures IdsAreSegments(FetchAccounts(accounts, oracle).txs)
  {
    var outcomes := AccountOutcomes(accounts, oracle);
    forall i | 0 <= i < |outcomes| ensures IdsAreSegments(outcomes[i].txs) {
      PageIdsAreSegments(PagesFor(oracle, accounts[i]), 0);
    }
    RunAccountsIdsAreSegments(outcomes);
  }

  /** Once an account's fetch throws, the outcomes of later accounts change nothing. */
  lemma AbortSkipsLaterAccounts(a: seq<Account>, b: seq<Account>, oracle: PageOracle)
    requires FetchAccounts(a, oracle).aborted
    ensures FetchAccounts(a + b, oracle) == FetchAccounts(a, oracle)
  {
    AccountOutcomesAppend(a, b, oracle);
    RunAccountsAbort(AccountOutcomes(a, oracle), AccountOutcomes(b, oracle));
  }

  /** Without an abort, fetching two runs of accounts concatenates what each run yields. */
  lemma FetchAccountsAppend(a: seq<Account>, b: seq<Account>, oracle: PageOracle)
    requires !FetchAccounts(a, oracle).aborted
    ensures FetchAccounts(a + b, oracle)
      == Fetched(FetchAccounts(a, oracle).txs + FetchAccounts(b, oracle).txs, FetchAccounts(b, oracle).aborted)
  {
    AccountOutcomesAppend(a, b, oracle);
    RunAccountsAppend(AccountOutcomes(a, oracle), AccountOutcomes(b, oracle));
  }

  /** A loop over one account yields what that account's pages yield. */
  lemma FetchOneAccount(x: Account, oracle: PageOracle)
    ensures FetchAccounts([x], oracle) == FetchPages(PagesFor(oracle, x), 0)
  {
    var outcome := FetchPages(PagesFor(oracle, x), 0);
    assert AccountOutcomes([x], oracle) == [outcome];
    assert [outcome][..0] == [];
    assert RunAccounts([outcome]) == Fetched([] + outcome.txs, outcome.aborted);
    assert [] + outcome.txs == outcome.txs;
  }

  /**
   One `try` around the whole account loop: when an account's fetch throws,
   the run keeps what the earlier accounts and that account yielded, reports
   the abort, and no later account adds anything.
   */
  lemma FailureEndsAccountLoop(a: seq<Account>, x: Account, b: seq<Account>, oracle: PageOracle)
    requires !FetchAccounts(a, oracle).aborted
    requires FetchPages(PagesFor(oracle, x), 0).aborted
    ensures FetchAccounts(a + [x] + b, oracle)
      == Fetched(FetchAccounts(a, oracle).txs + FetchPages(PagesFor(oracle, x), 0).txs, true)
  {
    FetchOneAccount(x, oracle);
    FetchAccountsAppend(a, [x], oracle);
    AbortSkipsLaterAccounts(a + [x], b, oracle);
  }

  /** An account whose pages are all well formed adds its records and lets the loop go on. */
  lemma {:induction false} WellFormedAccountsNeverAbort(accounts: seq<Account>, oracle: PageOracle)
    requires forall i, m :: 0 <= i < |accounts| && 0 <= m < |PagesFor(oracle, accounts[i])| ==>
      IsWellFormed(PagesFor(oracle, accounts[i])[m])
    ensures !FetchAccounts(accounts, oracle).aborted
    decreases |accounts|
  {
    if |accounts| > 0 {
      var init := accounts[..|accounts| - 1];
      var x := accounts[|accounts| - 1];
      assert accounts == init + [x];
      assert forall i :: 0 <= i < |init| ==> init[i] == accounts[i];
      WellFormedAccountsNeverAbort(init, oracle);
      var pages := PagesFor(oracle, x);
      assert forall m :: 0 <= m < |pages| ==> IsWellFormed(pages[m]);
      AbortNeedsBadPage(pages, 0);
      FetchAccountsAppend(init, [x], oracle);
      var outcome := FetchPages(pages, 0);
      assert AccountOutcomes([x], oracle) == [outcome];
      assert [outcome][..0] == [];
      assert !outcome.aborted;
      assert !RunAccounts([outcome]).aborted;
    }
  }

  /**
   `getFreeAgentData`: nothing without access; nothing when the account
   listing throws; otherwise what the account loop collected, cut short or not.
   */
  function GetFreeAgentData(hasAccess: bool, listing: Listing, oracle: PageOracle): (txs: seq<Tx>)
    ensures !hasAccess ==> txs == []
    ensures listing.ListingThrew? ==> txs == []
    ensures IdsAreSegments(txs)
  {
    if !hasAccess then []
    else match listing
      case ListingThrew => []
      case Listed(accounts) =>
        FetchedIdsAreSegments(accounts, oracle);
        FetchAccounts(accounts, oracle).txs
  }
}
