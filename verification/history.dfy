/**
 Sequences of money-moving requests, each one atomic unit run after the
 other, and what the journal says about the balances afterwards.
 */
module History {
  import opened Outcomes
  import opened Ledger
  import opened Unit
  import opened Handlers
  import Invariants

  /** A POST request body, as the handlers destructure it. */
  datatype Request =
    | TransferRequest(origin: AccountId, destination: AccountId, amount: int)
    | DepositRequest(account: AccountId, amount: int)
    | WithdrawRequest(account: AccountId, amount: int)

  /** A request together with where, if anywhere, the store fails while serving it. */
  datatype Call = Call(request: Request, fault: Fault)

  /** Deposits are modelled only for accounts that exist. */
  predicate Admissible(accounts: set<AccountId>, q: Request) {
    q.DepositRequest? ==> q.account in accounts
  }

  /** Serves one request: exactly one row per committed request, none for a failed one. */
  function Step(s: State, c: Call): (r: Reply)
    requires Admissible(s.balances.Keys, c.request)
    ensures r.state.balances.Keys == s.balances.Keys
    ensures r.outcome.Failure? ==> r.state == s
    ensures r.outcome.Success? ==>
              && r.state.journal == s.journal + [r.outcome.value]
              && r.outcome.value.stamp == s.clock
              && r.state.clock == s.clock + 1
              && (forall a :: a in s.balances ==> r.state.balances[a] == s.balances[a] + r.outcome.value.FlowTo(a))
  {
    match c.request
    case TransferRequest(o, d, x) => Transfer(s, o, d, x, c.fault)
    case DepositRequest(a, x) => Deposit(s, a, x, c.fault)
    case WithdrawRequest(a, x) => Withdraw(s, a, x, c.fault)
  }

  /** The net change the rows `rows` account for in the balance of `a`. */
  function SumFlow(rows: seq<Movement>, a: AccountId): int
    decreases |rows|
  {
    if rows == [] then 0 else SumFlow(rows[..|rows| - 1], a) + rows[|rows| - 1].FlowTo(a)
  }

  /** The net change the rows `rows` account for in the sum of all balances. */
  function SumEffect(rows: seq<Movement>): int
    decreases |rows|
  {
    if rows == [] then 0 else SumEffect(rows[..|rows| - 1]) + rows[|rows| - 1].NetEffect()
  }

  /** The number of calls that commit when served in order from `s`. */
  function Committed(s: State, calls: seq<Call>): nat
    requires forall i :: 0 <= i < |calls| ==> Admissible(s.balances.Keys, calls[i].request)
    decreases |calls|
  {
    if calls == [] then 0
    else
      var r := Step(s, calls[0]);
      (if r.outcome.Success? then 1 else 0) + Committed(r.state, calls[1..])
  }

  /** Serves the calls in order, each on the state the previous one left. */
  function Run(s: State, calls: seq<Call>): (t: State)
    requires forall i :: 0 <= i < |calls| ==> Admissible(s.balances.Keys, calls[i].request)
    ensures t.balances.Keys == s.balances.Keys
    decreases |calls|
  {
    if calls == [] then s else Run(Step(s, calls[0]).state, calls[1..])
  }

  /**
   The journal is append-only and explains every balance: after any run, the
   old journal is a prefix of the new one, one row was added per committed
   call, and each account's balance moved by exactly the flow of the new rows.
   */
  lemma {:induction false} RunReconciles(s: State, calls: seq<Call>)
    requires forall i :: 0 <= i < |calls| ==> Admissible(s.balances.Keys, calls[i].request)
    ensures var t := Run(s, calls);
            && s.journal <= t.journal
            && |t.journal| == |s.journal| + Committed(s, calls)
            && forall a :: a in s.balances ==>
                 t.balances[a] == s.balances[a] + SumFlow(t.journal[|s.journal|..], a)
    decreases |calls|
  {
    if calls == [] {
      assert s.journal[|s.journal|..] == [];
    } else {
      var r := Step(s, calls[0]);
      var mid := r.state;
      var t := Run(mid, calls[1..]);
      assert Run(s, calls) == t;
      assert forall i :: 0 <= i < |calls[1..]| ==> Admissible(mid.balances.Keys, calls[1..][i].request) by {
        forall i | 0 <= i < |calls[1..]|
          ensures Admissible(mid.balances.Keys, calls[1..][i].request)
        {
          assert calls[1..][i] == calls[i + 1];
        }
      }
      RunReconciles(mid, calls[1..]);
      var added := t.journal[|s.journal|..];
      var later := t.journal[|mid.journal|..];
      forall a | a in s.balances
        ensures t.balances[a] == s.balances[a] + SumFlow(added, a)
      {
        if r.outcome.Success? {
          assert added == [r.outcome.value] + later;
          SumFlowConcat([r.outcome.value], later, a);
          assert SumFlow([r.outcome.value], a) == r.outcome.value.FlowTo(a) by {
            assert [r.outcome.value][..0] == [];
          }
        } else {
          assert added == later;
        }
      }
    }
  }

  /** The flow of two runs of rows back to back is the sum of their flows. */
  lemma {:induction false} SumFlowConcat(xs: seq<Movement>, ys: seq<Movement>, a: AccountId)
    ensures SumFlow(xs + ys, a) == SumFlow(xs, a) + SumFlow(ys, a)
    decreases |ys|
  {
    if ys == [] {
      assert xs + ys == xs;
    } else {
      var ys' := ys[..|ys| - 1];
      assert (xs + ys)[..|xs + ys| - 1] == xs + ys';
      SumFlowConcat(xs, ys', a);
    }
  }

  /** The effect of two runs of rows back to back is the sum of their effects. */
  lemma {:induction false} SumEffectConcat(xs: seq<Movement>, ys: seq<Movement>)
    ensures SumEffect(xs + ys) == SumEffect(xs) + SumEffect(ys)
    decreases |ys|
  {
    if ys == [] {
      assert xs + ys == xs;
    } else {
      var ys' := ys[..|ys| - 1];
      assert (xs + ys)[..|xs + ys| - 1] == xs + ys';
      SumEffectConcat(xs, ys');
    }
  }

  /**
   The sum of all balances moves by exactly what the new rows account for:
   up by each deposit, down by each withdrawal, not at all for a transfer.
   */
  lemma {:induction false} RunTotal(s: State, calls: seq<Call>)
    requires forall i :: 0 <= i < |calls| ==> Admissible(s.balances.Keys, calls[i].request)
    ensures var t := Run(s, calls);
            s.journal <= t.journal && Total(t.balances) == Total(s.balances) + SumEffect(t.journal[|s.journal|..])
    decreases |calls|
  {
    RunReconciles(s, calls);
    if calls == [] {
      assert s.journal[|s.journal|..] == [];
    } else {
      var c := calls[0];
      var r := Step(s, c);
      var mid := r.state;
      var t := Run(mid, calls[1..]);
      assert forall i :: 0 <= i < |calls[1..]| ==> Admissible(mid.balances.Keys, calls[1..][i].request) by {
        forall i | 0 <= i < |calls[1..]|
          ensures Admissible(mid.balances.Keys, calls[1..][i].request)
        {
          assert calls[1..][i] == calls[i + 1];
        }
      }
      RunTotal(mid, calls[1..]);
      RunReconciles(mid, calls[1..]);
      var added := t.journal[|s.journal|..];
      var later := t.journal[|mid.journal|..];
      if r.outcome.Success? {
        assert added == [r.outcome.value] + later;
        SumEffectConcat([r.outcome.value], later);
        assert SumEffect([r.outcome.value]) == r.outcome.value.NetEffect() by {
          assert [r.outcome.value][..0] == [];
        }
        StepTotal(s, c);
      } else {
        assert added == later;
      }
    }
  }

  /** One committed call moves the sum of all balances by its row's net effect. */
  lemma StepTotal(s: State, c: Call)
    requires Admissible(s.balances.Keys, c.request)
    ensures var r := Step(s, c);
            r.outcome.Success? ==> Total(r.state.balances) == Total(s.balances) + r.outcome.value.NetEffect()
  {
    match c.request
    case TransferRequest(o, d, x) => Invariants.TransferConserves(s, o, d, x, c.fault);
    case DepositRequest(a, x) => Invariants.DepositAddsToTotal(s, a, x, c.fault);
    case WithdrawRequest(a, x) => Invariants.WithdrawSubtractsFromTotal(s, a, x, c.fault);
  }

  /** Requests that cannot overdraw: a withdrawal with any amount, a deposit or transfer with a non-negative one. */
  predicate NonNegativeAmount(q: Request) {
    q.WithdrawRequest? || q.amount >= 0
  }

  /** After any run, journal stamps still increase and lie below the clock. */
  lemma {:induction false} RunKeepsWellFormed(s: State, calls: seq<Call>)
    requires forall i :: 0 <= i < |calls| ==> Admissible(s.balances.Keys, calls[i].request)
    requires WellFormed(s)
    ensures WellFormed(Run(s, calls))
    decreases |calls|
  {
    if calls != [] {
      var mid := Step(s, calls[0]).state;
      match calls[0].request {
        case TransferRequest(o, d, x) => Invariants.TransferKeepsWellFormed(s, o, d, x, calls[0].fault);
        case DepositRequest(a, x) => Invariants.DepositKeepsWellFormed(s, a, x, calls[0].fault);
        case WithdrawRequest(a, x) => Invariants.WithdrawKeepsWellFormed(s, a, x, calls[0].fault);
      }
      assert forall i :: 0 <= i < |calls[1..]| ==> Admissible(mid.balances.Keys, calls[1..][i].request) by {
        forall i | 0 <= i < |calls[1..]|
          ensures Admissible(mid.balances.Keys, calls[1..][i].request)
        {
          assert calls[1..][i] == calls[i + 1];
        }
      }
      RunKeepsWellFormed(mid, calls[1..]);
    }
  }

  /**
   No account is overdrawn after a run whose deposits and transfers all carry
   non-negative amounts; withdrawals may carry any amount.
   */
  lemma {:induction false} RunKeepsNonNegative(s: State, calls: seq<Call>)
    requires forall i :: 0 <= i < |calls| ==> Admissible(s.balances.Keys, calls[i].request)
    requires forall i :: 0 <= i < |calls| ==> NonNegativeAmount(calls[i].request)
    requires NonNegative(s.balances)
    ensures NonNegative(Run(s, calls).balances)
    decreases |calls|
  {
    if calls != [] {
      var mid := Step(s, calls[0]).state;
      match calls[0].request {
        case TransferRequest(o, d, x) => Invariants.TransferKeepsNonNegative(s, o, d, x, calls[0].fault);
        case DepositRequest(a, x) => Invariants.DepositKeepsNonNegative(s, a, x, calls[0].fault);
        case WithdrawRequest(a, x) => Invariants.WithdrawKeepsNonNegative(s, a, x, calls[0].fault);
      }
      forall i | 0 <= i < |calls[1..]|
        ensures Admissible(mid.balances.Keys, calls[1..][i].request) && NonNegativeAmount(calls[1..][i].request)
      {
        assert calls[1..][i] == calls[i + 1];
      }
      RunKeepsNonNegative(mid, calls[1..]);
    }
  }
}
