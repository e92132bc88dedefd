# SystemBank ledger: a Dafny model of the money-moving handlers

SystemBank is a small banking back office. Its only logic with real content
is in `backend/app.js`: three POST handlers that move money, one each for
transfers (`/api/transferencias`), deposits (`/api/depositos`) and
withdrawals (`/api/retiros`). There is also one GET listing per movement
table. Each POST handler opens a database transaction, reads and locks the
rows it needs, tests its guards, updates the `saldo` column of `cuentas`,
inserts one row into its movement table, and commits. When a guard fails
or the store raises an error, it rolls back.

This project models each handler as one atomic, pure step over a ledger
state:

- `Ledger.State` holds the balances as a map from account id to an integer
  balance in minor units.
- It also holds the three movement tables as one append-only journal of
  `DepositRow`, `WithdrawalRow` and `TransferRow` entries.
- It also holds an abstract clock that stands in for `fecha`.

A handler returns a `Handlers.Reply`: the state it leaves behind, plus
either the inserted row or an error. The errors are `InvalidAccounts`,
`InsufficientFunds`, `InsufficientOrMissing` and `StoreFailure`.

Store errors inside the `try` block are an input, not an effect. A
`Unit.Fault` names the statement at which the store raises, if any. The
statements are numbered in the order the handler issues them, starting with
BEGIN at 0. Any such fault ends in the `catch` block's ROLLBACK, and the model assumes
that ROLLBACK succeeds.

The modules follow the program's structure:

- `Ledger`: entities, the balance sum and the journal invariant.
- `Unit`: one database transaction with its write statements.
- `Handlers`: the three POST handlers.
- `Journal`: the GET listings.
- `Invariants`: per-call properties.
- `History`: runs of many calls.
- `Outcomes`: the result wrapper.

Behaviours of the handlers that the model keeps:

- No handler checks the amount's sign. With a non-negative amount,
  non-negativity of balances is preserved. `Invariants.NegativeTransferOverdraws`
  and `Invariants.NegativeDepositOverdraws` show that a negative amount can
  overdraw an account. A withdrawal never overdraws, whatever the sign of
  its amount, because its guard compares the balance with the amount.
- A transfer whose origin and destination are the same account is accepted.
  It leaves the balance unchanged but still appends a row. It still fails
  with `InsufficientFunds` when the balance is below the amount.
- The deposit handler has no guard at all.
- The withdrawal handler reports one error for a missing account and for
  insufficient funds.
- A failed guard issues its own ROLLBACK inside the `try` block. If the
  store raises on that ROLLBACK, the answer is the catch block's 500
  (`StoreFailure`), not the guard's 400.
- Rows are locked in call order, origin then destination. Locking is
  outside this sequential model.
- A listing returns the raw rows of one table, newest first.

## Model

| member | source | states |
|---|---|---|
| Handlers.Transfer | backend/app.js:133-176 | A store error in BEGIN or either locking SELECT gives `StoreFailure`. Otherwise a missing origin or destination gives `InvalidAccounts`, then an origin balance below the amount gives `InsufficientFunds`, unless the store raises on that branch's own ROLLBACK, which gives `StoreFailure`. Once both guards pass, a store error at an UPDATE, the INSERT or COMMIT also gives `StoreFailure`. The call commits exactly when none of its seven statements faults, both rows exist and the origin covers the amount. Every failure leaves the state exactly as it was. A commit debits the origin, credits the destination and leaves every other account alone; when origin equals destination the balances do not change. A commit appends exactly the one row `(origin, destination, amount)`, stamped with the clock. |
| Handlers.Deposit | backend/app.js:192-212 | With the account present, the deposit commits exactly when no statement of its unit faults, whatever the amount's sign. A commit adds the amount to that account only and appends one deposit row. A failure is always `StoreFailure` and changes nothing. |
| Handlers.Withdraw | backend/app.js:227-252 | A missing row or a balance below the amount gives `InsufficientOrMissing`, unless BEGIN, the locking SELECT or the guard's own ROLLBACK faulted, which gives `StoreFailure`. Once the guard passes, a store error at the UPDATE, the INSERT or COMMIT also gives `StoreFailure`. The call commits exactly when the row exists, covers the amount and no statement faults. A commit subtracts the amount from that account only, leaves it non-negative, and appends one withdrawal row. A failure changes nothing. |
| Invariants.TransferConserves | backend/app.js:159-160 | Any transfer leaves the sum of all balances unchanged, whether it commits or fails. This includes a transfer from an account to itself. |
| Invariants.DepositAddsToTotal | backend/app.js:198 | A committed deposit raises the sum of all balances by its amount. A failed deposit leaves the sum unchanged. |
| Invariants.WithdrawSubtractsFromTotal | backend/app.js:233-238 | A committed withdrawal lowers the sum of all balances by its amount. A failed withdrawal leaves the sum unchanged. |
| Invariants.TransferRollsBack | backend/app.js:149-172 | A store error at any statement the transfer reaches gives `StoreFailure` and the exact starting state. That means BEGIN, a locking SELECT, a failed guard's own ROLLBACK, or, once both guards pass, an UPDATE, the INSERT or COMMIT. |
| Invariants.DepositRollsBack | backend/app.js:205-208 | A store error at any of the deposit's four statements gives `StoreFailure` and the exact starting state. |
| Invariants.WithdrawRollsBack | backend/app.js:233-248 | A store error at any statement the withdrawal reaches gives `StoreFailure` and the exact starting state. That means BEGIN, the locking SELECT, the failed guard's own ROLLBACK, or, once the guard passes, the UPDATE, the INSERT or COMMIT. |
| Invariants.TransferKeepsNonNegative | backend/app.js:154-160 | From non-negative balances, a transfer of a non-negative amount leaves every balance non-negative. |
| Invariants.DepositKeepsNonNegative | backend/app.js:198 | From non-negative balances, a deposit of a non-negative amount leaves every balance non-negative. |
| Invariants.WithdrawKeepsNonNegative | backend/app.js:234-238 | From non-negative balances, a withdrawal of any amount leaves every balance non-negative. |
| Invariants.NegativeTransferOverdraws | backend/app.js:154-160 | Because the amount's sign is unchecked, a negative transfer between two distinct accounts passes the funds guard. It commits, raises the origin and drives the destination below zero. |
| Invariants.NegativeDepositOverdraws | backend/app.js:198-202 | A negative deposit larger than the balance commits and overdraws the account. |
| Invariants.TransferKeepsWellFormed | backend/app.js:162-165 | After a transfer, journal stamps still strictly increase and all lie below the clock. |
| Invariants.DepositKeepsWellFormed | backend/app.js:199-202 | After a deposit, journal stamps still strictly increase and all lie below the clock. |
| Invariants.WithdrawKeepsWellFormed | backend/app.js:239-242 | After a withdrawal, journal stamps still strictly increase and all lie below the clock. |
| Invariants.OpposingTransfers | backend/app.js:159-165 | Two committed transfers, A to B of x and then B to A of y, leave A at A - x + y and B at B - y + x. The journal gains both rows, in order. |
| Invariants.RepeatedDepositAppliesTwice | backend/app.js:197-204 | The same deposit submitted twice adds twice the amount and appends two rows that differ only in their stamp. There is no idempotency. |
| Journal.ListMovements | backend/app.js:178-186 | Lists one table; the other two listings at 214-222 and 254-262 are identical. Every listed row is of the requested kind. The listing is a permutation of that table's rows. When journal stamps increase, the rows come out in strictly decreasing stamp order. |
| Journal.NewestFirstContents | backend/app.js:216 | The newest-first order holds exactly the rows of the requested kind, each as many times as the journal holds it. It holds nothing else. |
| Journal.NewestFirstOrdered | backend/app.js:256 | When the journal's stamps increase, the newest-first order is strictly decreasing by stamp, as `ORDER BY fecha DESC` requires. |
| History.Step | backend/app.js:133-252 | Serving any request keeps the set of accounts. A failure changes nothing. A commit appends exactly one row, stamped with the clock. Each account's balance then moves by exactly that row's flow to it. |
| History.RunReconciles | backend/app.js:159-242 | After any run of requests, the old journal is a prefix of the new one. One row was added per committed request. Every account's balance differs from its start by exactly the summed flow of the new rows. |
| History.RunTotal | backend/app.js:159-242 | After any run, the sum of all balances differs from its start by the deposits minus the withdrawals recorded in the new rows. Transfers contribute nothing. |
| History.RunKeepsWellFormed | backend/app.js:162-242 | After any run, journal stamps still strictly increase and lie below the clock. |
| History.RunKeepsNonNegative | backend/app.js:154-238 | From non-negative balances, a run whose deposits and transfers all carry non-negative amounts leaves every balance non-negative. |

## Left out

- Express routing, HTTP status codes and JSON bodies (backend/app.js:1-18, 264-266): outcomes are the `Handlers.Error` datatype instead. A 400 answer is one of the first three errors; a 500 answer is `StoreFailure`.
- A second store error, at the catch block's own ROLLBACK (backend/app.js:170, 206, 246): this is not modelled. The handler then throws out of its callback after `finally` releases the client, and it sends no answer. The state is the same either way, because nothing was committed.
- The `pg` pool and client connect/release: they are I/O with no logic. A failing `pool.connect()` happens before the transaction begins, so it changes nothing.
- Row locking (`FOR UPDATE`) and concurrency: each handler is one atomic, sequential step. Lock order and deadlock behaviour are not modelled.
- Numeric representation: balances and amounts are unbounded integers in minor units. The model ignores two details of the real program. pg returns `numeric` values as strings, and JavaScript's `<` compares two strings lexicographically.
- `NOW()` and the `fecha` column: these are an abstract clock that advances by one per committed row. Two transactions in the same instant would get equal `fecha` values, and the model does not cover that.
- Deposit and withdrawal stamps: the INSERTs into `depositos` and `retiros` set only `cuenta_id` and `monto`, so their `fecha` comes from a column default in a schema that is not part of this model. The model assumes that default is `NOW()`-like and stamps those rows with the clock too; without such a default, `ORDER BY fecha DESC` would not order those two tables, and Journal.NewestFirstOrdered would say nothing about them.
- Handlers.Deposit: requires the account to exist. For a missing id, the UPDATE touches no row. The INSERT's fate then depends on the `depositos` schema, which is not part of this model.
- Journal.ListMovements: the database's own error during a listing (the 500 answer) is not modelled, because a listing changes no state either way.
- The serial `id` column of the movement tables: a row's identity is its position in the journal.
- Customer CRUD, account creation and account lookup by cédula (backend/app.js:23-128): these are direct SQL pass-through.
- `backend/db.js` `connectWithRetry`: this is connection plumbing built on timers.
- The Angular front end, including its field-name mismatch with the handlers: the front end sends `numero_origen` and `numero_cuenta`, while the handlers read `origen` and `cuenta_id`. This is UI and transport, not ledger logic.
