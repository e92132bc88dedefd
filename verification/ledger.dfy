/**
 The ledger state the money handlers of the back end work on: the `saldo`
 column of the `cuentas` table, seen as a map from account id to balance, and
 the three movement tables (`depositos`, `retiros`, `transferencias`), seen as
 one append-only journal in insertion order.
 */
module Ledger {

  /** The `id` column of `cuentas`. */
  type AccountId = int

  /** The three movement tables a listing can be asked for. */
  datatype Kind = Deposits | Withdrawals | Transfers

  /**
   One row of a movement table. Amounts are integers in minor units; nothing
   constrains their sign, because no handler checks it. `stamp` is the
   `fecha` column, an abstract clock value.
   */
  datatype Movement =
    | DepositRow(account: AccountId, amount: int, stamp: nat)
    | WithdrawalRow(account: AccountId, amount: int, stamp: nat)
    | TransferRow(origin: AccountId, destination: AccountId, amount: int, stamp: nat)
  {
    /** The table this row belongs to. */
    function KindOf(): Kind {
      match this
      case DepositRow(_, _, _) => Deposits
      case WithdrawalRow(_, _, _) => Withdrawals
      case TransferRow(_, _, _, _) => Transfers
    }

    /** The change this movement accounts for in the balance of account `a`. */
    function FlowTo(a: AccountId): int {
      match this
      case DepositRow(c, x, _) => if c == a then x else 0
      case WithdrawalRow(c, x, _) => if c == a then -x else 0
      case TransferRow(o, d, x, _) => (if d == a then x else 0) - (if o == a then x else 0)
    }

    /** The change this movement accounts for in the sum of all balances. */
    function NetEffect(): int {
      match this
      case DepositRow(_, x, _) => x
      case WithdrawalRow(_, x, _) => -x
      case TransferRow(_, _, _, _) => 0
    }
  }

  /** Balances per account, the journal of committed movements, and the clock that stamps new rows. */
  datatype State = State(balances: map<AccountId, int>, journal: seq<Movement>, clock: nat)

  /** Stamps strictly increase along the journal. */
  predicate Chronological(journal: seq<Movement>) {
    forall i, j :: 0 <= i < j < |journal| ==> journal[i].stamp < journal[j].stamp
  }

  /** Journal stamps strictly increase and all lie before the clock. */
  predicate WellFormed(s: State) {
    && Chronological(s.journal)
    && (forall i :: 0 <= i < |s.journal| ==> s.journal[i].stamp < s.clock)
  }

  /** No account is overdrawn. */
  predicate NonNegative(balances: map<AccountId, int>) {
    forall a :: a in balances ==> balances[a] >= 0
  }

  /** Some account of a non-empty map: the one `Total` takes out first. */
  ghost function Pick(balances: map<AccountId, int>): (a: AccountId)
    requires exists k :: k in balances
    ensures a in balances
  {
    var k :| k in balances; k
  }

  /** The sum of all balances. */
  ghost function Total(balances: map<AccountId, int>): int
    decreases balances.Keys
  {
    if exists k :: k in balances then
      var k := Pick(balances);
      balances[k] + Total(balances - {k})
    else 0
  }

  /** The total may be computed by taking out any account first, not only the one `Total` picks. */
  lemma {:induction false} TotalWithout(balances: map<AccountId, int>, a: AccountId)
    requires a in balances
    ensures Total(balances) == balances[a] + Total(balances - {a})
    decreases balances.Keys
  {
    var k := Pick(balances);
    if k != a {
      var rest := balances - {k};
      assert rest.Keys == balances.Keys - {k};
      assert a in rest;
      TotalWithout(rest, a);
      var other := balances - {a};
      assert other.Keys == balances.Keys - {a};
      assert k in other;
      TotalWithout(other, k);
      assert rest - {a} == other - {k};
    }
  }

  /** Adding `delta` to one existing account adds `delta` to the total. */
  lemma TotalAdjust(balances: map<AccountId, int>, a: AccountId, delta: int)
    requires a in balances
    ensures Total(balances[a := balances[a] + delta]) == Total(balances) + delta
  {
    var after := balances[a := balances[a] + delta];
    TotalWithout(balances, a);
    TotalWithout(after, a);
    assert after - {a} == balances - {a};
  }
}
