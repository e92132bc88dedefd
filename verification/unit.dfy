/**
 One database transaction as the handlers use it: BEGIN, some reads, some
 writes, COMMIT; any error raised by the store inside the `try` block sends
 control to the `catch`, which issues ROLLBACK.
 */
module Unit {
  import opened Ledger

  /** A write statement: `UPDATE cuentas SET saldo = saldo + delta WHERE id = account`, or an INSERT into a movement table. */
  datatype Write = Adjust(account: AccountId, delta: int) | Insert(entry: Movement)

  /**
   Where, if anywhere, the store raises an error inside a unit. Statements are
   numbered in the order a handler issues them, BEGIN being 0; a number the
   handler never reaches raises nothing.
   */
  datatype Fault = NoFault | FailAt(step: nat)

  /** The fault hits one of the statements numbered `lo` up to but excluding `hi`. */
  predicate Raises(f: Fault, lo: nat, hi: nat) {
    f.FailAt? && lo <= f.step < hi
  }

  /** The effect of one write on the working copy. An UPDATE of a missing row touches nothing. */
  function ApplyWrite(s: State, w: Write): State {
    match w
    case Adjust(a, d) =>
      if a in s.balances then s.(balances := s.balances[a := s.balances[a] + d]) else s
    case Insert(e) => s.(journal := s.journal + [e], clock := s.clock + 1)
  }

  /** The effect of a run of writes, in order. */
  function ApplyWrites(s: State, ws: seq<Write>): State
    decreases |ws|
  {
    if ws == [] then s else ApplyWrites(ApplyWrite(s, ws[0]), ws[1..])
  }

  /** Two writes in a row. */
  lemma ApplyTwo(s: State, w0: Write, w1: Write)
    ensures ApplyWrites(s, [w0, w1]) == ApplyWrite(ApplyWrite(s, w0), w1)
  {
    assert [w0, w1][1..] == [w1];
    assert [w1][1..] == [];
    var t := ApplyWrite(s, w0);
    assert ApplyWrites(s, [w0, w1]) == ApplyWrites(t, [w1]);
    assert ApplyWrites(t, [w1]) == ApplyWrites(ApplyWrite(t, w1), []);
  }

  /** Three writes in a row. */
  lemma ApplyThree(s: State, w0: Write, w1: Write, w2: Write)
    ensures ApplyWrites(s, [w0, w1, w2]) == ApplyWrite(ApplyWrite(ApplyWrite(s, w0), w1), w2)
  {
    assert [w0, w1, w2][1..] == [w1, w2];
    ApplyTwo(ApplyWrite(s, w0), w1, w2);
  }

  /**
   Issues the writes `ws` as statements `first`, `first + 1`, ... and then
   COMMIT. Returns the state the unit leaves behind and whether it committed.
   When a fault hits any of these statements, the catch block rolls back and
   the working copy is discarded.
   */
  function Commit(s: State, ws: seq<Write>, first: nat, f: Fault): (State, bool) {
    if Raises(f, first, first + |ws| + 1) then (s, false) else (ApplyWrites(s, ws), true)
  }
}
