/**
 Properties of single handler calls and of short sequences of calls: what
 each does to the sum of all balances, to the non-negativity of balances, and
 to the ordering of journal stamps.
 */
module Invariants {
  import opened Outcomes
  import opened Ledger
  import opened Unit
  import opened Handlers

  /** A transfer, committed or not, leaves the sum of all balances unchanged; this includes `origin == destination`. */
  lemma TransferConserves(s: State, origin: AccountId, destination: AccountId, amount: int, f: Fault)
    ensures Total(Transfer(s, origin, destination, amount, f).state.balances) == Total(s.balances)
  {
    var r := Transfer(s, origin, destination, amount, f);
    if r.outcome.Success? {
      var debited := s.balances[origin := s.balances[origin] - amount];
      TotalAdjust(s.balances, origin, -amount);
      TotalAdjust(debited, destination, amount);
      assert r.state.balances == debited[destination := debited[destination] + amount];
    }
  }

  /** A committed deposit adds its amount to the sum of all balances; a failed one adds nothing. */
  lemma DepositAddsToTotal(s: State, account: AccountId, amount: int, f: Fault)
    requires account in s.balances
    ensures var r := Deposit(s, account, amount, f);
            Total(r.state.balances) == Total(s.balances) + (if r.outcome.Success? then amount else 0)
  {
    var r := Deposit(s, account, amount, f);
    if r.outcome.Success? {
      TotalAdjust(s.balances, account, amount);
      assert r.state.balances == s.balances[account := s.balances[account] + amount];
    }
  }

  /** A committed withdrawal takes its amount off the sum of all balances; a failed one takes nothing. */
  lemma WithdrawSubtractsFromTotal(s: State, account: AccountId, amount: int, f: Fault)
    ensures var r := Withdraw(s, account, amount, f);
            Total(r.state.balances) == Total(s.balances) - (if r.outcome.Success? then amount else 0)
  {
    var r := Withdraw(s, account, amount, f);
    if r.outcome.Success? {
      TotalAdjust(s.balances, account, -amount);
      assert r.state.balances == s.balances[account := s.balances[account] - amount];
    }
  }

  /** With a non-negative amount, a transfer overdraws no account. */
  lemma TransferKeepsNonNegative(s: State, origin: AccountId, destination: AccountId, amount: int, f: Fault)
    requires NonNegative(s.balances)
    requires amount >= 0
    ensures NonNegative(Transfer(s, origin, destination, amount, f).state.balances)
  {
  }

  /** With a non-negative amount, a deposit overdraws no account. */
  lemma DepositKeepsNonNegative(s: State, account: AccountId, amount: int, f: Fault)
    requires account in s.balances
    requires NonNegative(s.balances)
    requires amount >= 0
    ensures NonNegative(Deposit(s, account, amount, f).state.balances)
  {
  }

  /** A withdrawal overdraws no account, whatever the amount's sign: the guard leaves the balance at least zero. */
  lemma WithdrawKeepsNonNegative(s: State, account: AccountId, amount: int, f: Fault)
    requires NonNegative(s.balances)
    ensures NonNegative(Withdraw(s, account, amount, f).state.balances)
  {
  }

  /**
   Since the amount's sign is never checked, a transfer of a negative amount
   passes the funds guard and pushes the destination below zero when its
   balance is smaller than the magnitude of the amount.
   */
  lemma NegativeTransferOverdraws(s: State, origin: AccountId, destination: AccountId, amount: int)
    requires origin in s.balances && destination in s.balances && origin != destination
    requires amount < 0 <= s.balances[origin]
    requires s.balances[destination] + amount < 0
    ensures var r := Transfer(s, origin, destination, amount, NoFault);
            && r.outcome.Success?
            && r.state.balances[destination] < 0
            && r.state.balances[origin] > s.balances[origin]
  {
  }

  /** Likewise a deposit of a negative amount larger than the balance overdraws the account. */
  lemma NegativeDepositOverdraws(s: State, account: AccountId, amount: int)
    requires account in s.balances
    requires s.balances[account] + amount < 0
    ensures var r := Deposit(s, account, amount, NoFault);
            r.outcome.Success? && r.state.balances[account] < 0
  {
  }

  /** A transfer keeps the journal stamps strictly increasing and below the clock. */
  lemma TransferKeepsWellFormed(s: State, origin: AccountId, destination: AccountId, amount: int, f: Fault)
    requires WellFormed(s)
    ensures WellFormed(Transfer(s, origin, destination, amount, f).state)
  {
  }

  /** A deposit keeps the journal stamps strictly increasing and below the clock. */
  lemma DepositKeepsWellFormed(s: State, account: AccountId, amount: int, f: Fault)
    requires account in s.balances
    requires WellFormed(s)
    ensures WellFormed(Deposit(s, account, amount, f).state)
  {
  }

  /** A withdrawal keeps the journal stamps strictly increasing and below the clock. */
  lemma WithdrawKeepsWellFormed(s: State, account: AccountId, amount: int, f: Fault)
    requires WellFormed(s)
    ensures WellFormed(Withdraw(s, account, amount, f).state)
  {
  }

  /**
   Two transfers in opposite directions between the same two accounts, both
   committed: each account ends at its start, minus what it sent, plus what it
   received, and the journal holds both rows in order.
   */
  lemma OpposingTransfers(s: State, a: AccountId, b: AccountId, x: int, y: int)
    requires a != b
    requires Transfer(s, a, b, x, NoFault).outcome.Success?
    requires Transfer(Transfer(s, a, b, x, NoFault).state, b, a, y, NoFault).outcome.Success?
    ensures var t := Transfer(Transfer(s, a, b, x, NoFault).state, b, a, y, NoFault).state;
            && t.balances[a] == s.balances[a] - x + y
            && t.balances[b] == s.balances[b] - y + x
            && t.journal == s.journal + [TransferRow(a, b, x, s.clock), TransferRow(b, a, y, s.clock + 1)]
  {
  }

  /**
   There is no idempotency key: submitting the same deposit twice applies the
   amount twice and records two rows that differ only in their stamp.
   */
  lemma RepeatedDepositAppliesTwice(s: State, account: AccountId, amount: int)
    requires account in s.balances
    ensures var t := Deposit(Deposit(s, account, amount, NoFault).state, account, amount, NoFault).state;
            && t.balances[account] == s.balances[account] + 2 * amount
            && t.journal == s.journal + [DepositRow(account, amount, s.clock), DepositRow(account, amount, s.clock + 1)]
  {
  }

  /**
   A store error at any statement a transfer reaches rolls the whole unit
   back: BEGIN, the two locking reads, statement 3 whichever it is (a failed
   guard's ROLLBACK or the first UPDATE), and, once the guards pass, the rest.
   */
  lemma TransferRollsBack(s: State, origin: AccountId, destination: AccountId, amount: int, f: Fault)
    requires || Raises(f, 0, TransferFirstWrite + 1)
             || (&& Raises(f, TransferFirstWrite, TransferSteps)
                 && origin in s.balances && destination in s.balances
                 && amount <= s.balances[origin])
    ensures Transfer(s, origin, destination, amount, f) == Reply(s, Failure(StoreFailure))
  {
  }

  /** A store error at any statement of a deposit rolls the whole unit back. */
  lemma DepositRollsBack(s: State, account: AccountId, amount: int, f: Fault)
    requires account in s.balances
    requires Raises(f, 0, DepositSteps)
    ensures Deposit(s, account, amount, f) == Reply(s, Failure(StoreFailure))
  {
  }

  /**
   A store error at any statement a withdrawal reaches rolls the whole unit
   back: BEGIN, the locking read, statement 2 whichever it is (the failed
   guard's ROLLBACK or the UPDATE), and, once the guard passes, the rest.
   */
  lemma WithdrawRollsBack(s: State, account: AccountId, amount: int, f: Fault)
    requires || Raises(f, 0, WithdrawFirstWrite + 1)
             || (Raises(f, WithdrawFirstWrite, WithdrawSteps) && account in s.balances && amount <= s.balances[account])
    ensures Withdraw(s, account, amount, f) == Reply(s, Failure(StoreFailure))
  {
  }
}
