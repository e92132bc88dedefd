/**
 The three money-moving POST handlers (`/api/transferencias`,
 `/api/depositos`, `/api/retiros`), each as one atomic step over the ledger
 state. A handler answers with the state it leaves behind and either the row
 it inserted (`RETURNING *`) or the error it reported.
 */
module Handlers {
  import opened Outcomes
  import opened Ledger
  import opened Unit

  /** The errors the handlers report; the first three are the 400 answers, the last the 500 answer of the catch block. */
  datatype Error =
    | InvalidAccounts        // transfer: origin or destination row missing
    | InsufficientFunds      // transfer: origin balance below the amount
    | InsufficientOrMissing  // withdrawal: row missing or balance below the amount (one message for both)
    | StoreFailure           // any error raised by the store inside the unit

  /** The state after the request, and what the handler answered. */
  datatype Reply = Reply(state: State, outcome: Result<Movement, Error>)

  /**
   Transfer unit: 0 BEGIN, 1 and 2 the SELECT ... FOR UPDATE of origin and
   destination, 3 and 4 the UPDATEs, 5 the INSERT, 6 COMMIT. When a guard
   fails, statement 3 is instead that branch's own ROLLBACK, which is still
   inside the `try` block.
   */
  const TransferFirstWrite: nat := 3
  const TransferSteps: nat := 7

  /**
   Each unit's `FirstWrite` is the number of the first statement after BEGIN
   and the locking reads, and `Steps` is the number of statements up to and
   including COMMIT.

   Deposit unit: 0 BEGIN, 1 UPDATE, 2 INSERT, 3 COMMIT.
   */
  const DepositFirstWrite: nat := 1
  const DepositSteps: nat := 4

  /**
   Withdrawal unit: 0 BEGIN, 1 SELECT saldo ... FOR UPDATE, 2 UPDATE, 3 INSERT,
   4 COMMIT. When the guard fails, statement 2 is instead the guard's own
   ROLLBACK, still inside the `try` block.
   */
  const WithdrawFirstWrite: nat := 2
  const WithdrawSteps: nat := 5

  /**
   A failed guard issues ROLLBACK as statement `step` and answers `e`; if the
   store raises on that ROLLBACK, control passes to the catch block instead.
   Either way nothing was written.
   */
  function GuardRollback(s: State, f: Fault, step: nat, e: Error): Reply {
    if Raises(f, step, step + 1) then Reply(s, Failure(StoreFailure)) else Reply(s, Failure(e))
  }

  /**
   POST /api/transferencias. Both rows must exist, then the origin balance must
   cover the amount; the amount's sign and `origin == destination` are not
   checked.
   */
  function Transfer(s: State, origin: AccountId, destination: AccountId, amount: int, f: Fault): (r: Reply)
    // the guards, in the order the handler tests them
    ensures Raises(f, 0, TransferFirstWrite) ==> r.outcome == Failure(StoreFailure)
    ensures (!Raises(f, 0, TransferFirstWrite + 1) && (origin !in s.balances || destination !in s.balances))
              ==> r.outcome == Failure(InvalidAccounts)
    ensures (!Raises(f, 0, TransferFirstWrite + 1) && origin in s.balances && destination in s.balances
               && s.balances[origin] < amount)
              ==> r.outcome == Failure(InsufficientFunds)
    ensures r.outcome.Success? <==>
              && !Raises(f, 0, TransferSteps)
              && origin in s.balances && destination in s.balances
              && amount <= s.balances[origin]
    ensures r.outcome == Failure(StoreFailure) ==> Raises(f, 0, TransferSteps)
    // a store error at any statement the unit reaches, a failed guard's ROLLBACK included, is the catch block's answer
    ensures (|| Raises(f, 0, TransferFirstWrite + 1)
             || (&& Raises(f, TransferFirstWrite, TransferSteps)
                 && origin in s.balances && destination in s.balances
                 && amount <= s.balances[origin]))
              ==> r.outcome == Failure(StoreFailure)
    // a failure is rolled back completely
    ensures r.outcome.Failure? ==> r.state == s
    // a commit moves the amount and appends exactly one row
    ensures r.outcome.Success? ==>
              && r.outcome.value == TransferRow(origin, destination, amount, s.clock)
              && r.state.journal == s.journal + [r.outcome.value]
              && r.state.clock == s.clock + 1
              && r.state.balances.Keys == s.balances.Keys
              && (origin != destination ==>
                    && r.state.balances[origin] == s.balances[origin] - amount
                    && r.state.balances[destination] == s.balances[destination] + amount)
              && (origin == destination ==> r.state.balances == s.balances)
              && (forall a :: a in s.balances && a != origin && a != destination
                    ==> r.state.balances[a] == s.balances[a])
  {
    if Raises(f, 0, TransferFirstWrite) then Reply(s, Failure(StoreFailure))
    else if origin !in s.balances || destination !in s.balances then GuardRollback(s, f, TransferFirstWrite, InvalidAccounts)
    else if s.balances[origin] < amount then GuardRollback(s, f, TransferFirstWrite, InsufficientFunds)
    else
      var row := TransferRow(origin, destination, amount, s.clock);
      var writes := [Adjust(origin, -amount), Adjust(destination, amount), Insert(row)];
      ApplyThree(s, writes[0], writes[1], writes[2]);
      var (after, committed) := Commit(s, writes, TransferFirstWrite, f);
      if committed then Reply(after, Success(row)) else Reply(s, Failure(StoreFailure))
  }

  /**
   POST /api/depositos. No guard at all: the UPDATE and the INSERT run
   unconditionally. The row is required to exist, because what the INSERT does
   for a missing account depends on the schema of `depositos`.
   */
  function Deposit(s: State, account: AccountId, amount: int, f: Fault): (r: Reply)
    requires account in s.balances
    ensures r.outcome.Success? <==> !Raises(f, 0, DepositSteps)
    ensures r.outcome.Failure? ==> r.state == s && r.outcome.error == StoreFailure
    ensures r.outcome.Success? ==>
              && r.outcome.value == DepositRow(account, amount, s.clock)
              && r.state.journal == s.journal + [r.outcome.value]
              && r.state.clock == s.clock + 1
              && r.state.balances.Keys == s.balances.Keys
              && r.state.balances[account] == s.balances[account] + amount
              && (forall a :: a in s.balances && a != account ==> r.state.balances[a] == s.balances[a])
  {
    if Raises(f, 0, DepositFirstWrite) then Reply(s, Failure(StoreFailure))
    else
      var row := DepositRow(account, amount, s.clock);
      ApplyTwo(s, Adjust(account, amount), Insert(row));
      var (after, committed) := Commit(s, [Adjust(account, amount), Insert(row)], DepositFirstWrite, f);
      if committed then Reply(after, Success(row)) else Reply(s, Failure(StoreFailure))
  }

  /**
   POST /api/retiros. One guard covers both a missing row and a balance below
   the amount; the amount's sign is not checked.
   */
  function Withdraw(s: State, account: AccountId, amount: int, f: Fault): (r: Reply)
    ensures Raises(f, 0, WithdrawFirstWrite) ==> r.outcome == Failure(StoreFailure)
    ensures (!Raises(f, 0, WithdrawFirstWrite + 1) && (account !in s.balances || s.balances[account] < amount))
              ==> r.outcome == Failure(InsufficientOrMissing)
    ensures r.outcome.Success? <==>
              !Raises(f, 0, WithdrawSteps) && account in s.balances && amount <= s.balances[account]
    ensures r.outcome == Failure(StoreFailure) ==> Raises(f, 0, WithdrawSteps)
    ensures (|| Raises(f, 0, WithdrawFirstWrite + 1)
             || (Raises(f, WithdrawFirstWrite, WithdrawSteps) && account in s.balances && amount <= s.balances[account]))
              ==> r.outcome == Failure(StoreFailure)
    ensures r.outcome.Failure? ==> r.state == s
    ensures r.outcome.Success? ==>
              && r.outcome.value == WithdrawalRow(account, amount, s.clock)
              && r.state.journal == s.journal + [r.outcome.value]
              && r.state.clock == s.clock + 1
              && r.state.balances.Keys == s.balances.Keys
              && r.state.balances[account] == s.balances[account] - amount
              && r.state.balances[account] >= 0
              && (forall a :: a in s.balances && a != account ==> r.state.balances[a] == s.balances[a])
  {
    if Raises(f, 0, WithdrawFirstWrite) then Reply(s, Failure(StoreFailure))
    else if account !in s.balances || s.balances[account] < amount then GuardRollback(s, f, WithdrawFirstWrite, InsufficientOrMissing)
    else
      var row := WithdrawalRow(account, amount, s.clock);
      ApplyTwo(s, Adjust(account, -amount), Insert(row));
      var (after, committed) := Commit(s, [Adjust(account, -amount), Insert(row)], WithdrawFirstWrite, f);
      if committed then Reply(after, Success(row)) else Reply(s, Failure(StoreFailure))
  }
}
