/** The finished store: which deposits and withdrawals are settled, and how. Its
    tables have UNIQUE keys and an INSERT that conflicts is skipped. */
module FinishedStore {
  import opened Options

  type Hash = string
  type Bytes = seq<bv8>

  /** A row of WithdrawTransactions: the Id of the main-chain transaction that failed,
      0 if it succeeded. */
  datatype Row = Row(sideTx: nat, succeed: bool)

  datatype Deposit = Deposit(hash: Hash, genesis: string)

  /** Ids of SideChainTransactions are given out 1, 2, 3, ... and rows are never
      deleted, so the row with Id i stands at position i - 1. */
  datatype State = State(
    sideTxs: seq<Bytes>,               // SideChainTransactions
    withdraws: map<Hash, Row>,         // WithdrawTransactions
    deposits: map<Deposit, bool>)      // DepositTransactions, with the Succeed column

  const EMPTY := State([], map[], map[])

  function InsertWithdraws(table: map<Hash, Row>, hashes: seq<Hash>, row: Row): map<Hash, Row> {
    if hashes == [] then table
    else
      var t, h := InsertWithdraws(table, hashes[..|hashes| - 1], row), hashes[|hashes| - 1];
      if h in t then t else t[h := row]
  }

  function InsertDeposits(table: map<Deposit, bool>, ds: seq<Deposit>, succeed: bool): map<Deposit, bool> {
    if ds == [] then table
    else
      var t, d := InsertDeposits(table, ds[..|ds| - 1], succeed), ds[|ds| - 1];
      if d in t then t else t[d := succeed]
  }

  function AddFailed(st: State, hashes: seq<Hash>, bytes: Bytes): State {
    var sideTxs := st.sideTxs + [bytes];
    st.(sideTxs := sideTxs, withdraws := InsertWithdraws(st.withdraws, hashes, Row(|sideTxs|, false)))
  }

  function AddSucceed(st: State, hashes: seq<Hash>): State {
    st.(withdraws := InsertWithdraws(st.withdraws, hashes, Row(0, true)))
  }

  /** GetWithdrawTxByHash: the Succeed column, and the bytes if it is false; None for
      an unknown hash or a missing row. */
  function Lookup(st: State, h: Hash): Option<(bool, Bytes)> {
    if h !in st.withdraws then None
    else if st.withdraws[h].succeed then Some((true, []))
    else if 1 <= st.withdraws[h].sideTx <= |st.sideTxs| then Some((false, st.sideTxs[st.withdraws[h].sideTx - 1]))
    else None
  }

  // ---- the store as a first-writer-wins map --------------------------------------------------

  /** The calls that write. A crash inside AddFailedWithdrawTxs leaves the bytes and
      no verdicts, as the verdicts are committed together. */
  datatype Call =
    | Failed(hashes: seq<Hash>, bytes: Bytes)
    | Succeeded(hashes: seq<Hash>)
    | BytesOnly(bytes: Bytes)

  function Apply(st: State, c: Call): State {
    match c
    case Failed(hashes, bytes) => AddFailed(st, hashes, bytes)
    case Succeeded(hashes) => AddSucceed(st, hashes)
    case BytesOnly(bytes) => st.(sideTxs := st.sideTxs + [bytes])
  }

  function After(calls: seq<Call>): State {
    if calls == [] then EMPTY else Apply(After(calls[..|calls| - 1]), calls[|calls| - 1])
  }

  /** What the first call that names h says about it. */
  function FirstVerdict(calls: seq<Call>, h: Hash): Option<(bool, Bytes)> {
    if calls == [] then None
    else
      var before, c := FirstVerdict(calls[..|calls| - 1], h), calls[|calls| - 1];
      if before.Some? then before
      else
        match c
        case Failed(hashes, bytes) => if h in hashes then Some((false, bytes)) else None
        case Succeeded(hashes) => if h in hashes then Some((true, [])) else None
        case BytesOnly(_) => None
  }

  lemma {:induction false} InsertedWithdraws(table: map<Hash, Row>, hashes: seq<Hash>, row: Row, h: Hash)
    ensures var t := InsertWithdraws(table, hashes, row);
            && (h in t <==> h in table || h in hashes)
            && (h in t ==> t[h] == if h in table then table[h] else row)
  {
    if hashes != [] {
      InsertedWithdraws(table, hashes[..|hashes| - 1], row, h);
      assert hashes == hashes[..|hashes| - 1] + [hashes[|hashes| - 1]];
    }
  }

  ghost predicate RowsExist(st: State) {
    forall h | h in st.withdraws && !st.withdraws[h].succeed :: 1 <= st.withdraws[h].sideTx <= |st.sideTxs|
  }

  lemma ApplyRows(st: State, c: Call)
    requires RowsExist(st)
    ensures RowsExist(Apply(st, c))
  {
    var next := Apply(st, c);
    forall h | h in next.withdraws && !next.withdraws[h].succeed ensures 1 <= next.withdraws[h].sideTx <= |next.sideTxs| {
      match c
      case Failed(hashes, bytes) => InsertedWithdraws(st.withdraws, hashes, Row(|st.sideTxs| + 1, false), h);
      case Succeeded(hashes) => InsertedWithdraws(st.withdraws, hashes, Row(0, true), h);
      case BytesOnly(bytes) =>
    }
  }

  lemma ApplyLookup(st: State, c: Call, h: Hash)
    requires RowsExist(st)
    ensures var verdict := match c
              case Failed(hashes, bytes) => if h in hashes then Some((false, bytes)) else None
              case Succeeded(hashes) => if h in hashes then Some((true, [])) else None
              case BytesOnly(_) => None;
            Lookup(Apply(st, c), h) == if Lookup(st, h).Some? then Lookup(st, h) else verdict
  {
    match c
    case Failed(hashes, bytes) => InsertedWithdraws(st.withdraws, hashes, Row(|st.sideTxs| + 1, false), h);
    case Succeeded(hashes) => InsertedWithdraws(st.withdraws, hashes, Row(0, true), h);
    case BytesOnly(bytes) =>
  }

  /** Refinement: after any calls, crashes between bytes and verdicts included,
      looking a hash up gives what the first call that named it recorded, with the
      bytes of that very call; every failed row refers to an existing row. */
  lemma {:induction false} FirstWriterWins(calls: seq<Call>, h: Hash)
    ensures Lookup(After(calls), h) == FirstVerdict(calls, h) && RowsExist(After(calls))
  {
    if calls != [] {
      FirstWriterWins(calls[..|calls| - 1], h);
      ApplyRows(After(calls[..|calls| - 1]), calls[|calls| - 1]);
      ApplyLookup(After(calls[..|calls| - 1]), calls[|calls| - 1], h);
    }
  }

  /** A verdict never changes once it is recorded. */
  lemma {:induction false} VerdictsStay(calls: seq<Call>, more: seq<Call>, h: Hash)
    requires Lookup(After(calls), h).Some?
    ensures Lookup(After(calls + more), h) == Lookup(After(calls), h)
  {
    if more == [] {
      assert calls + more == calls;
    } else {
      var init, last := more[..|more| - 1], more[|more| - 1];
      VerdictsStay(calls, init, h);
      assert (calls + more)[..|calls + more| - 1] == calls + init;
      FirstWriterWins(calls + init, h);
      ApplyLookup(After(calls + init), last, h);
    }
  }

  lemma {:induction false} InsertedDeposits(table: map<Deposit, bool>, ds: seq<Deposit>, succeed: bool, d: Deposit)
    ensures var t := InsertDeposits(table, ds, succeed);
            && (d in t <==> d in table || d in ds)
            && (d in t ==> t[d] == if d in table then table[d] else succeed)
  {
    if ds != [] {
      InsertedDeposits(table, ds[..|ds| - 1], succeed, d);
      assert ds == ds[..|ds| - 1] + [ds[|ds| - 1]];
    }
  }

  // ---- the store itself --------------------------------------------------------------------------

  class Store {
    var sideTxs: seq<Bytes>
    var withdraws: map<Hash, Row>
    var deposits: map<Deposit, bool>

    ghost function Abs(): State
      reads this
    {
      State(sideTxs, withdraws, deposits)
    }

    constructor ()
      ensures Abs() == EMPTY
    {
      sideTxs, withdraws, deposits := [], map[], map[];
    }

    method InsertAll(hashes: seq<Hash>, row: Row)
      modifies this`withdraws
      ensures withdraws == InsertWithdraws(old(withdraws), hashes, row)
    {
      for i := 0 to |hashes|
        invariant withdraws == InsertWithdraws(old(withdraws), hashes[..i], row)
      {
        assert hashes[..i + 1][..i] == hashes[..i];
        if hashes[i] in withdraws {
          continue;
        }
        withdraws := withdraws[hashes[i] := row];
      }
      assert hashes[..|hashes|] == hashes;
    }

    /** The Id given to the bytes is read back as the largest one. */
    method AddFailedWithdrawTxs(hashes: seq<Hash>, bytes: Bytes)
      modifies this
      ensures Abs() == AddFailed(old(Abs()), hashes, bytes)
    {
      sideTxs := sideTxs + [bytes];
      var id := |sideTxs|;
      InsertAll(hashes, Row(id, false));
    }

    method AddSucceedWithdrawTxs(hashes: seq<Hash>)
      modifies this
      ensures Abs() == AddSucceed(old(Abs()), hashes)
    {
      InsertAll(hashes, Row(0, true));
    }

    method AddDepositTxs(ds: seq<Deposit>, succeed: bool)
      modifies this`deposits
      ensures deposits == InsertDeposits(old(deposits), ds, succeed)
    {
      for i := 0 to |ds|
        invariant deposits == InsertDeposits(old(deposits), ds[..i], succeed)
      {
        assert ds[..i + 1][..i] == ds[..i];
        if ds[i] in deposits {
          continue;
        }
        deposits := deposits[ds[i] := succeed];
      }
      assert ds[..|ds|] == ds;
    }

    method GetWithdrawTxByHash(h: Hash) returns (r: Option<(bool, Bytes)>)
      ensures r == Lookup(Abs(), h)
    {
      if h !in withdraws {
        return None;
      }
      var row := withdraws[h];
      if row.succeed {
        return Some((true, []));
      }
      if row.sideTx < 1 || row.sideTx > |sideTxs| {
        return None;
      }
      return Some((false, sideTxs[row.sideTx - 1]));
    }
  }
}
