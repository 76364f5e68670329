/** What of the backlog of withdrawals goes into the next proposal
    (SendCachedWithdrawTxs): the first rows of the table, without those that the main
    chain has already paid, without those that cannot be proposed. */
module Backlog {
  import opened WithdrawBuilder
  import opened Withdrawals

  /** SubstractTransactionHashes and its siblings. */
  function Subtract<T(==)>(hashes: seq<T>, sub: seq<T>): seq<T> {
    if hashes == [] then []
    else
      Subtract(hashes[..|hashes| - 1], sub)
        + if hashes[|hashes| - 1] in sub then [] else [hashes[|hashes| - 1]]
  }

  method SubtractTransactionHashes<T(==)>(hashes: seq<T>, sub: seq<T>) returns (result: seq<T>)
    ensures result == Subtract(hashes, sub)
  {
    result := [];
    for i := 0 to |hashes|
      invariant result == Subtract(hashes[..i], sub)
    {
      assert hashes[..i + 1][..i] == hashes[..i];
      var found := false;
      for j := 0 to |sub|
        invariant found <==> hashes[i] in sub[..j]
      {
        assert sub[..j + 1] == sub[..j] + [sub[j]];
        if sub[j] == hashes[i] {
          found := true;
        }
      }
      assert sub[..|sub|] == sub;
      if !found {
        result := result + [hashes[i]];
      }
    }
    assert hashes[..|hashes|] == hashes;
  }

  /** Exactly the others are left, each as often as before. */
  lemma {:induction false} SubtractKeeps<T>(hashes: seq<T>, sub: seq<T>, h: T)
    ensures multiset(Subtract(hashes, sub))[h] == if h in sub then 0 else multiset(hashes)[h]
  {
    if hashes != [] {
      var init, last := hashes[..|hashes| - 1], hashes[|hashes| - 1];
      SubtractKeeps(init, sub, h);
      assert hashes == init + [last];
    }
  }

  lemma {:induction false} SubtractInOrder<T>(a: seq<T>, b: seq<T>, sub: seq<T>)
    ensures Subtract(a + b, sub) == Subtract(a, sub) + Subtract(b, sub)
  {
    if b == [] {
      assert a + b == a;
    } else {
      assert (a + b)[..|a + b| - 1] == a + b[..|b| - 1];
      SubtractInOrder(a, b[..|b| - 1], sub);
    }
  }

  /** The rows with a hash from the list, in table order. */
  function RowsOf(rows: seq<WithdrawTx>, ids: seq<nat>): seq<WithdrawTx> {
    if rows == [] then []
    else RowsOf(rows[..|rows| - 1], ids) + if rows[|rows| - 1].id in ids then [rows[|rows| - 1]] else []
  }

  lemma SubtractMember<T>(hashes: seq<T>, sub: seq<T>, h: T)
    ensures h in Subtract(hashes, sub) <==> h in hashes && h !in sub
  {
    SubtractKeeps(hashes, sub, h);
    assert h in hashes <==> h in multiset(hashes);
    assert h in Subtract(hashes, sub) <==> h in multiset(Subtract(hashes, sub));
  }

  function Head(rows: seq<WithdrawTx>, max: nat): seq<nat> {
    if |rows| > max then Ids(rows)[..max] else Ids(rows)
  }

  /** What the proposal is made from. */
  function Targets(rows: seq<WithdrawTx>, max: nat, received: seq<nat>, frozen: set<Address>): seq<WithdrawTx> {
    Filter(RowsOf(rows, Subtract(Head(rows, max), received)), frozen)
  }

  /** Exactly the listed rows, each as often as in the table ... */
  lemma {:induction false} RowsOfKeeps(rows: seq<WithdrawTx>, ids: seq<nat>, tx: WithdrawTx)
    ensures multiset(RowsOf(rows, ids))[tx] == if tx.id in ids then multiset(rows)[tx] else 0
    ensures tx in RowsOf(rows, ids) <==> tx in rows && tx.id in ids
  {
    if rows != [] {
      var init, last := rows[..|rows| - 1], rows[|rows| - 1];
      RowsOfKeeps(init, ids, tx);
      assert rows == init + [last];
    }
    assert tx in rows <==> tx in multiset(rows);
    assert tx in RowsOf(rows, ids) <==> tx in multiset(RowsOf(rows, ids));
  }

  /** ... and in its order. */
  lemma {:induction false} RowsOfInOrder(a: seq<WithdrawTx>, b: seq<WithdrawTx>, ids: seq<nat>)
    ensures RowsOf(a + b, ids) == RowsOf(a, ids) + RowsOf(b, ids)
  {
    if b == [] {
      assert a + b == a;
    } else {
      assert (a + b)[..|a + b| - 1] == a + b[..|b| - 1];
      RowsOfInOrder(a, b[..|b| - 1], ids);
    }
  }

  /** The candidates stand in table order: those among the first k rows come before the
      others, whatever k. And none stands more often than in the table. */
  lemma TargetsInOrder(rows: seq<WithdrawTx>, max: nat, received: seq<nat>, frozen: set<Address>, k: nat)
    requires k <= |rows|
    ensures var ids := Subtract(Head(rows, max), received);
            Targets(rows, max, received, frozen)
              == Filter(RowsOf(rows[..k], ids), frozen) + Filter(RowsOf(rows[k..], ids), frozen)
    ensures forall tx :: multiset(Targets(rows, max, received, frozen))[tx] <= multiset(rows)[tx]
  {
    var ids := Subtract(Head(rows, max), received);
    assert rows == rows[..k] + rows[k..];
    RowsOfInOrder(rows[..k], rows[k..], ids);
    FilterInOrder(RowsOf(rows[..k], ids), RowsOf(rows[k..], ids), frozen);
    forall tx ensures multiset(Targets(rows, max, received, frozen))[tx] <= multiset(rows)[tx] {
      FilterKeeps(RowsOf(rows, ids), frozen, tx);
      RowsOfKeeps(rows, ids, tx);
    }
  }

  /** A withdrawal is a candidate for the proposal if and only if it is among the first
      `max` rows of the table, not reported as paid, and proposable. */
  lemma CandidateIff(rows: seq<WithdrawTx>, max: nat, received: seq<nat>, frozen: set<Address>, i: nat)
    requires DistinctIds(rows) && i < |rows|
    ensures rows[i] in Targets(rows, max, received, frozen) <==>
              i < max && rows[i].id !in received && Proposable(rows[i], frozen)
  {
    var ids := Subtract(Head(rows, max), received);
    FilterKeeps(RowsOf(rows, ids), frozen, rows[i]);
    RowsOfKeeps(rows, ids, rows[i]);
    SubtractMember(Head(rows, max), received, rows[i].id);
    HeadIs(rows, max, i);
  }

  lemma HeadIs(rows: seq<WithdrawTx>, max: nat, i: nat)
    requires DistinctIds(rows) && i < |rows|
    ensures rows[i].id in Head(rows, max) <==> i < max
  {
    var head := Head(rows, max);
    if i < max {
      assert head[i] == rows[i].id && rows[i].id in head;
    } else {
      forall j | 0 <= j < |head| ensures head[j] == rows[j].id != rows[i].id {
      }
    }
  }

  /** There is nothing to propose if and only if every one of the first `max` rows is
      reported as paid or cannot be proposed. */
  lemma NothingToProposeIff(rows: seq<WithdrawTx>, max: nat, received: seq<nat>, frozen: set<Address>)
    requires DistinctIds(rows)
    ensures Targets(rows, max, received, frozen) == [] <==>
              forall i | 0 <= i < |rows| && i < max :: rows[i].id in received || !Proposable(rows[i], frozen)
  {
    var targets := Targets(rows, max, received, frozen);
    if targets != [] {
      var ids := Subtract(Head(rows, max), received);
      FilterKeeps(RowsOf(rows, ids), frozen, targets[0]);
      RowsOfKeeps(rows, ids, targets[0]);
      var i :| 0 <= i < |rows| && rows[i] == targets[0];
      CandidateIff(rows, max, received, frozen, i);
    } else {
      forall i | 0 <= i < |rows| && i < max ensures rows[i].id in received || !Proposable(rows[i], frozen) {
        CandidateIff(rows, max, received, frozen, i);
      }
    }
  }

  // ---- runs of the table ----------------------------------------------------------------------

  /** The scan appends rows, as the table gives out growing row numbers; rows leave it
      when the main chain reports them as paid or the payload of a settled transaction
      lists them; and the arbiter on duty makes a proposal from it. */
  datatype Event =
    | Scanned(txs: seq<WithdrawTx>)
    | Left(ids: seq<nat>)
    | Called(received: seq<nat>)

  predicate Has(rows: seq<WithdrawTx>, id: nat) {
    exists i :: 0 <= i < |rows| && rows[i].id == id
  }

  /** AddSideChainTxs: a hash that is already there is skipped. */
  function Insert(rows: seq<WithdrawTx>, txs: seq<WithdrawTx>): seq<WithdrawTx>
    decreases |txs|
  {
    if txs == [] then rows
    else if Has(rows, txs[0].id) then Insert(rows, txs[1..])
    else Insert(rows + [txs[0]], txs[1..])
  }

  /** RemoveSideChainTxs. */
  function Remove(rows: seq<WithdrawTx>, ids: seq<nat>): seq<WithdrawTx> {
    if rows == [] then []
    else Remove(rows[..|rows| - 1], ids) + if rows[|rows| - 1].id in ids then [] else [rows[|rows| - 1]]
  }

  function Step(rows: seq<WithdrawTx>, ev: Event): seq<WithdrawTx> {
    match ev
    case Scanned(txs) => Insert(rows, txs)
    case Left(ids) => Remove(rows, ids)
    case Called(received) => rows
  }

  function Run(rows: seq<WithdrawTx>, evs: seq<Event>): seq<WithdrawTx> {
    if evs == [] then rows else Step(Run(rows, evs[..|evs| - 1]), evs[|evs| - 1])
  }

  lemma {:induction false} InsertKeeps(rows: seq<WithdrawTx>, txs: seq<WithdrawTx>)
    requires DistinctIds(rows)
    ensures DistinctIds(Insert(rows, txs)) && rows <= Insert(rows, txs)
    decreases |txs|
  {
    if txs != [] {
      InsertKeeps(if Has(rows, txs[0].id) then rows else rows + [txs[0]], txs[1..]);
    }
  }

  /** A hash is in the table afterwards if it was there or has been handed in. */
  lemma {:induction false} InsertIs(rows: seq<WithdrawTx>, txs: seq<WithdrawTx>, id: nat)
    ensures Has(Insert(rows, txs), id) <==> Has(rows, id) || Has(txs, id)
    decreases |txs|
  {
    if txs != [] {
      var next := if Has(rows, txs[0].id) then rows else rows + [txs[0]];
      InsertIs(next, txs[1..], id);
      HasFirst(txs, id);
      if next != rows {
        HasSnoc(rows, txs[0], id);
      }
    }
  }

  lemma HasFirst(txs: seq<WithdrawTx>, id: nat)
    requires txs != []
    ensures Has(txs, id) <==> txs[0].id == id || Has(txs[1..], id)
  {
    if i :| 0 <= i < |txs| && txs[i].id == id {
      assert i > 0 ==> txs[1..][i - 1].id == id;
    }
    if i :| 0 <= i < |txs[1..]| && txs[1..][i].id == id {
      assert txs[i + 1].id == id;
    }
  }

  lemma HasSnoc(rows: seq<WithdrawTx>, tx: WithdrawTx, id: nat)
    ensures Has(rows + [tx], id) <==> Has(rows, id) || tx.id == id
  {
    var longer := rows + [tx];
    if i :| 0 <= i < |rows| && rows[i].id == id {
      assert longer[i].id == id;
    }
    assert longer[|rows|] == tx;
    if i :| 0 <= i < |longer| && longer[i].id == id {
      assert i < |rows| ==> rows[i].id == id;
    }
  }

  /** Exactly the others are left, each as often as before. */
  lemma {:induction false} RemoveIs(rows: seq<WithdrawTx>, ids: seq<nat>, tx: WithdrawTx)
    ensures multiset(Remove(rows, ids))[tx] == if tx.id in ids then 0 else multiset(rows)[tx]
    ensures tx in Remove(rows, ids) <==> tx in rows && tx.id !in ids
  {
    if rows != [] {
      var init, last := rows[..|rows| - 1], rows[|rows| - 1];
      RemoveIs(init, ids, tx);
      assert rows == init + [last];
    }
    assert tx in rows <==> tx in multiset(rows);
    assert tx in Remove(rows, ids) <==> tx in multiset(Remove(rows, ids));
  }

  lemma {:induction false} RemoveInOrder(a: seq<WithdrawTx>, b: seq<WithdrawTx>, ids: seq<nat>)
    ensures Remove(a + b, ids) == Remove(a, ids) + Remove(b, ids)
  {
    if b == [] {
      assert a + b == a;
    } else {
      assert (a + b)[..|a + b| - 1] == a + b[..|b| - 1];
      RemoveInOrder(a, b[..|b| - 1], ids);
    }
  }

  lemma HasRemoved(rows: seq<WithdrawTx>, ids: seq<nat>, id: nat)
    ensures Has(Remove(rows, ids), id) <==> Has(rows, id) && id !in ids
  {
    var left := Remove(rows, ids);
    if i :| 0 <= i < |left| && left[i].id == id {
      RemoveIs(rows, ids, left[i]);
      assert left[i] in rows;
    }
    if i :| 0 <= i < |rows| && rows[i].id == id {
      RemoveIs(rows, ids, rows[i]);
    }
  }

  predicate TakesOut(ev: Event, id: nat) {
    ev.Left? && id in ev.ids
  }

  predicate PutsIn(ev: Event, id: nat) {
    ev.Scanned? && Has(ev.txs, id)
  }

  predicate StaysIn(evs: seq<Event>, id: nat) {
    forall j | 0 <= j < |evs| :: !TakesOut(evs[j], id)
  }

  /** Put in, and not taken out since. */
  predicate Standing(evs: seq<Event>, id: nat) {
    exists i :: 0 <= i < |evs| && PutsIn(evs[i], id) && forall j | i < j < |evs| :: !TakesOut(evs[j], id)
  }

  lemma StandingSnoc(evs: seq<Event>, id: nat)
    requires evs != []
    ensures var init, last := evs[..|evs| - 1], evs[|evs| - 1];
            && (StaysIn(evs, id) <==> StaysIn(init, id) && !TakesOut(last, id))
            && (Standing(evs, id) <==> PutsIn(last, id) || (Standing(init, id) && !TakesOut(last, id)))
  {
    var n := |evs| - 1;
    var init, last := evs[..n], evs[n];
    assert forall j | 0 <= j < n :: init[j] == evs[j];
    if Standing(init, id) && !TakesOut(last, id) {
      var i :| 0 <= i < n && PutsIn(init[i], id) && forall j | i < j < n :: !TakesOut(init[j], id);
      assert PutsIn(evs[i], id);
    }
    if Standing(evs, id) && !PutsIn(last, id) {
      var i :| 0 <= i < |evs| && PutsIn(evs[i], id) && forall j | i < j < |evs| :: !TakesOut(evs[j], id);
      assert PutsIn(init[i], id);
    }
  }

  /** Over every run, the withdrawals in the table are those that were there or have been
      scanned and have not left since. */
  lemma {:induction false} InTableIff(rows: seq<WithdrawTx>, evs: seq<Event>, id: nat)
    ensures Has(Run(rows, evs), id) <==> (Has(rows, id) && StaysIn(evs, id)) || Standing(evs, id)
  {
    if evs != [] {
      var init, last := evs[..|evs| - 1], evs[|evs| - 1];
      InTableIff(rows, init, id);
      StandingSnoc(evs, id);
      match last
      case Scanned(txs) => InsertIs(Run(rows, init), txs, id);
      case Left(ids) => HasRemoved(Run(rows, init), ids, id);
      case Called(_) =>
    }
  }

  lemma {:induction false} RemoveDistinct(rows: seq<WithdrawTx>, ids: seq<nat>)
    requires DistinctIds(rows)
    ensures DistinctIds(Remove(rows, ids))
  {
    if rows != [] {
      var init, last := rows[..|rows| - 1], rows[|rows| - 1];
      RemoveDistinct(init, ids);
      forall tx | tx in Remove(init, ids) ensures tx.id != last.id {
        RemoveIs(init, ids, tx);
      }
    }
  }

  lemma {:induction false} RemoveNothing(rows: seq<WithdrawTx>, ids: seq<nat>)
    requires forall i | 0 <= i < |rows| :: rows[i].id !in ids
    ensures Remove(rows, ids) == rows
  {
    if rows != [] {
      RemoveNothing(rows[..|rows| - 1], ids);
    }
  }

  /** Removing rows behind the head leaves the head. */
  lemma {:induction false} RemoveKeeps(rows: seq<WithdrawTx>, ids: seq<nat>, k: nat)
    requires k <= |rows| && forall i | 0 <= i < k :: rows[i].id !in ids
    ensures rows[..k] <= Remove(rows, ids)
    decreases |rows|
  {
    if k == |rows| {
      RemoveNothing(rows, ids);
    } else {
      RemoveKeeps(rows[..|rows| - 1], ids, k);
      assert rows[..|rows| - 1][..k] == rows[..k];
    }
  }

  /** The first k rows leave the table only by being reported or settled. */
  lemma {:induction false} HeadStays(rows: seq<WithdrawTx>, evs: seq<Event>, k: nat)
    requires DistinctIds(rows) && k <= |rows|
    requires forall ev, i | ev in evs && ev.Left? && 0 <= i < k :: rows[i].id !in ev.ids
    ensures DistinctIds(Run(rows, evs)) && rows[..k] <= Run(rows, evs)
  {
    if evs != [] {
      var init, last := evs[..|evs| - 1], evs[|evs| - 1];
      HeadStays(rows, init, k);
      var before := Run(rows, init);
      match last
      case Scanned(txs) => InsertKeeps(before, txs);
      case Left(ids) =>
        assert last in evs;
        forall i | 0 <= i < k ensures before[i].id !in ids {
          assert before[i] == rows[..k][i] == rows[i];
        }
        RemoveDistinct(before, ids);
        RemoveKeeps(before, ids, k);
        assert before[..k] == rows[..k];
      case Called(received) =>
    }
  }

  /** Once the first `max` rows are such as cannot be proposed, and as long as none of
      them is reported as paid or settled, every call over every run proposes nothing,
      whatever the scan appends behind them. */
  lemma HeadStarvesTheRest(rows: seq<WithdrawTx>, evs: seq<Event>, max: nat, received: seq<nat>, frozen: set<Address>)
    requires DistinctIds(rows) && max <= |rows|
    requires forall i | 0 <= i < max :: !Proposable(rows[i], frozen)
    requires forall ev, i | ev in evs && ev.Left? && 0 <= i < max :: rows[i].id !in ev.ids
    ensures Targets(Run(rows, evs), max, received, frozen) == []
  {
    HeadStays(rows, evs, max);
    var now := Run(rows, evs);
    forall i | 0 <= i < |now| && i < max ensures !Proposable(now[i], frozen) {
      assert now[i] == rows[..max][i] == rows[i];
    }
    NothingToProposeIff(now, max, received, frozen);
  }
}
