/**
 `updateCashBalance`: the live cash position is the sum of the current
 balances of the active accounts, written to one Dashboard cell. Balances
 are whole minor units here; an account without a balance adds nothing.
 */
module Balance {
  import opened Records

  /** The balance an account adds to the total: its current balance, or nothing when it has none. */
  function Contribution(account: Account): int {
    account.currentBalance.GetOr(0)
  }

  /** The sum of the present balances, accounts taken in order. */
  function CashTotal(accounts: seq<Account>): int
    decreases |accounts|
  {
    if |accounts| == 0 then 0
    else CashTotal(accounts[..|accounts| - 1]) + Contribution(accounts[|accounts| - 1])
  }

  /** The total of two runs of accounts is the sum of their totals. */
  lemma {:induction false} CashTotalAppend(a: seq<Account>, b: seq<Account>)
    ensures CashTotal(a + b) == CashTotal(a) + CashTotal(b)
    decreases |b|
  {
    if |b| == 0 {
      assert a + b == a;
    } else {
      assert (a + b)[..|a + b| - 1] == a + b[..|b| - 1];
      assert (a + b)[|a + b| - 1] == b[|b| - 1];
      CashTotalAppend(a, b[..|b| - 1]);
    }
  }

  /** An account whose balance is absent weighs exactly as one whose balance is zero. */
  lemma {:induction false} MissingBalanceCountsAsZero(a: seq<Account>, b: seq<Account>, account: Account)
    requires account.currentBalance.None?
    ensures CashTotal(a + [account] + b) == CashTotal(a + [account.(currentBalance := Some(0))] + b)
    ensures CashTotal(a + [account] + b) == CashTotal(a + b)
  {
    var zero := account.(currentBalance := Some(0));
    CashTotalAppend(a + [account], b);
    CashTotalAppend(a + [zero], b);
    CashTotalAppend(a, b);
    assert (a + [account])[..|a|] == a;
    assert (a + [zero])[..|a|] == a;
  }

  /** Active accounts holding 120.50, nothing and -30.00 add up to 90.50. */
  lemma MixedBalancesExample(x: Account, y: Account, z: Account)
    requires x.currentBalance == Some(12050) && y.currentBalance.None? && z.currentBalance == Some(-3000)
    ensures CashTotal([x, y, z]) == 9050
  {
    assert [x, y, z][..2] == [x, y];
    assert [x, y][..1] == [x];
    assert [x][..0] == [];
    assert CashTotal([x]) == 12050;
    assert CashTotal([x, y]) == 12050;
  }

  /**
   The Dashboard cell after `updateCashBalance`: without access, or when the
   listing throws, the cell keeps its value; otherwise it holds the total of
   the active accounts listed, zero when there are none.
   */
  function UpdateCashBalance(hasAccess: bool, active: Listing, cell: Option<int>): (r: Option<int>)
    ensures !hasAccess || active.ListingThrew? ==> r == cell
    ensures hasAccess && active.Listed? ==> r == Some(CashTotal(active.accounts))
  {
    if !hasAccess then cell
    else match active
      case ListingThrew => cell
      case Listed(accounts) => Some(CashTotal(accounts))
  }
}
