/**
 One run of the sync from the menu: fetch every account's transactions,
 append the new ones to Raw_Data, then refresh the Dashboard cash cell.
 The remote service is a value: whether credentials are valid, what the two
 account listings return, and the pages each account's transactions span.
 */
module Engine {
  import opened Records
  import opened Ledger
  import opened Fetch
  import opened Balance
  import opened Sync

  /** The accounting service as the sync sees it during one run. */
  datatype Remote = Remote(
    hasAccess: bool,
    allAccounts: Listing,
    activeAccounts: Listing,
    oracle: PageOracle)

  /** The three tabs the sync touches: Mapping, Raw_Data and the Dashboard cash cell. */
  datatype Workbook = Workbook(mapping: Sheet, rawData: Sheet, cashCell: Option<int>)

  /** The transactions one run fetches from `remote`. */
  function FetchedFrom(remote: Remote): seq<Tx> {
    GetFreeAgentData(remote.hasAccess, remote.allAccounts, remote.oracle)
  }

  /**
   `runSync`. The mapping tab is only read; Raw_Data only grows at the end,
   by rows whose ids it did not hold; the cash cell follows the active
   accounts when they can be listed. Without access nothing changes.
   */
  function RunSync(remote: Remote, book: Workbook): (r: Workbook)
    ensures r.mapping == book.mapping
    ensures |r.rawData| >= |book.rawData| && r.rawData[..|book.rawData|] == book.rawData
    ensures forall k :: |book.rawData| <= k < |r.rawData| ==> IdCell(r.rawData[k]) !in ExistingIds(book.rawData)
    ensures !remote.hasAccess ==> r == book
    ensures remote.hasAccess && remote.activeAccounts.Listed? ==> r.cashCell == Some(CashTotal(remote.activeAccounts.accounts))
    ensures remote.activeAccounts.ListingThrew? ==> r.cashCell == book.cashCell
  {
    var o := Process(FetchedFrom(remote), book.mapping, book.rawData);
    Workbook(book.mapping, o.ledger, UpdateCashBalance(remote.hasAccess, remote.activeAccounts, book.cashCell))
  }

  /**
   Running the sync twice against the same remote state leaves the workbook
   as the first run left it, provided Raw_Data has its header row and no
   fetched transaction has an empty id.
   */
  lemma RunSyncTwiceChangesNothing(remote: Remote, book: Workbook)
    requires |book.rawData| >= 1
    requires forall i :: 0 <= i < |FetchedFrom(remote)| ==> FetchedFrom(remote)[i].id != ""
    ensures RunSync(remote, RunSync(remote, book)) == RunSync(remote, book)
  {
    SecondPassAddsNothing(FetchedFrom(remote), book.mapping, book.rawData);
  }

  /**
   When no two data rows of Raw_Data share a non-empty id, none do after a
   run, provided the remote does not list the same transaction twice.
   */
  lemma RunSyncKeepsIdsUnique(remote: Remote, book: Workbook)
    requires UniqueIds(book.rawData)
    requires forall i, j :: 0 <= i < j < |FetchedFrom(remote)| ==> FetchedFrom(remote)[i].id != FetchedFrom(remote)[j].id
    ensures UniqueIds(RunSync(remote, book).rawData)
  {
    PassKeepsIdsUnique(FetchedFrom(remote), book.mapping, book.rawData);
  }
}
