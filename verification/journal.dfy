/**
 The three GET handlers (`/api/transferencias`, `/api/depositos`,
 `/api/retiros`): `SELECT * FROM <table> ORDER BY fecha DESC`. A listing only
 reads the state it is given.
 */
module Journal {
  import opened Ledger

  /** The rows of one table, in insertion order. */
  function OfKind(rows: seq<Movement>, k: Kind): seq<Movement>
    decreases |rows|
  {
    if rows == [] then []
    else (if rows[0].KindOf() == k then [rows[0]] else []) + OfKind(rows[1..], k)
  }

  /** The rows of one table, latest insertion first. */
  function NewestFirst(rows: seq<Movement>, k: Kind): seq<Movement>
    decreases |rows|
  {
    if rows == [] then []
    else NewestFirst(rows[1..], k) + (if rows[0].KindOf() == k then [rows[0]] else [])
  }

  /** Newest-first holds the rows of the one kind and nothing else, each as often as the journal does. */
  lemma {:induction false} NewestFirstContents(rows: seq<Movement>, k: Kind)
    ensures multiset(NewestFirst(rows, k)) == multiset(OfKind(rows, k))
    ensures forall i :: 0 <= i < |NewestFirst(rows, k)| ==> NewestFirst(rows, k)[i].KindOf() == k
    ensures forall m :: m in NewestFirst(rows, k) ==> m in rows
    decreases |rows|
  {
    if rows != [] {
      NewestFirstContents(rows[1..], k);
      var rest := NewestFirst(rows[1..], k);
      var head := if rows[0].KindOf() == k then [rows[0]] else [];
      assert NewestFirst(rows, k) == rest + head;
      forall m | m in NewestFirst(rows, k)
        ensures m in rows
      {
        if m in rest {
          assert m in rows[1..];
        }
      }
    }
  }

  /** When stamps increase along the journal, newest-first lists them strictly decreasing. */
  lemma {:induction false} NewestFirstOrdered(rows: seq<Movement>, k: Kind)
    requires Chronological(rows)
    ensures forall i, j :: 0 <= i < j < |NewestFirst(rows, k)| ==>
              NewestFirst(rows, k)[i].stamp > NewestFirst(rows, k)[j].stamp
    decreases |rows|
  {
    if rows != [] {
      var tail := rows[1..];
      assert Chronological(tail) by {
        forall i, j | 0 <= i < j < |tail|
          ensures tail[i].stamp < tail[j].stamp
        {
          assert tail[i] == rows[i + 1] && tail[j] == rows[j + 1];
        }
      }
      NewestFirstOrdered(tail, k);
      NewestFirstContents(tail, k);
      var rest := NewestFirst(tail, k);
      var out := NewestFirst(rows, k);
      assert out == rest + (if rows[0].KindOf() == k then [rows[0]] else []);
      forall i, j | 0 <= i < j < |out|
        ensures out[i].stamp > out[j].stamp
      {
        if j < |rest| {
          assert out[i] == rest[i] && out[j] == rest[j];
        } else {
          assert out[i] == rest[i] && out[j] == rows[0];
          assert rest[i] in tail;
          var q :| 0 <= q < |tail| && tail[q] == rest[i];
          assert rows[q + 1] == rest[i];
        }
      }
    }
  }

  /**
   The listing of one kind: every row of that kind, each exactly once, newest
   stamp first.
   */
  method ListMovements(s: State, k: Kind) returns (rows: seq<Movement>)
    ensures forall i :: 0 <= i < |rows| ==> rows[i].KindOf() == k
    ensures multiset(rows) == multiset(OfKind(s.journal, k))
    ensures Chronological(s.journal) ==> forall i, j :: 0 <= i < j < |rows| ==> rows[i].stamp > rows[j].stamp
  {
    rows := [];
    var n := |s.journal|;
    while n > 0
      invariant 0 <= n <= |s.journal|
      invariant rows == NewestFirst(s.journal[n..], k)
    {
      n := n - 1;
      assert s.journal[n..][1..] == s.journal[n + 1..];
      if s.journal[n].KindOf() == k {
        rows := rows + [s.journal[n]];
      }
    }
    assert s.journal[0..] == s.journal;
    NewestFirstContents(s.journal, k);
    if Chronological(s.journal) {
      NewestFirstOrdered(s.journal, k);
    }
  }
}
