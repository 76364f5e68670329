/** Building the withdraw transaction (CreateWithdrawTransactionV1; the Schnorr
    builder makes the same inputs and outputs) and choosing what to put into it. */
module WithdrawBuilder {
  import opened CoinSelection
  import opened Options
  import opened Sums
  import opened Withdrawals

  /** Where the money comes from: the address of the side chain's bank, its rate, and
      the unspent outputs the main node offers for an amount. */
  datatype Source = Source(bank: ProgramHash, rate: real, utxos: int -> seq<Utxo>)

  predicate Parse(items: seq<Item>) {
    forall i | 0 <= i < |items| :: items[i].asset.target.Encodes?
  }

  function PayoutOf(x: Item, src: Source): Output
    requires src.rate > 0.0 && x.asset.target.Encodes?
  {
    Output(x.asset.target.hash, Conv(x.asset.crossChain, src.rate), Withdraw(src.bank, x.sideTx))
  }

  function Payouts(items: seq<Item>, src: Source): (os: seq<Output>)
    requires src.rate > 0.0 && Parse(items)
    ensures |os| == |items|
  {
    seq(|items|, i requires 0 <= i < |items| => PayoutOf(items[i], src))
  }

  function ChangeTo(bank: ProgramHash, change: int): seq<Output> {
    if change > 0 then [Output(bank, change, Plain)] else []
  }

  function Build(txs: seq<WithdrawTx>, src: Source): Option<Transaction>
    requires src.rate > 0.0
  {
    var items := Flatten(txs);
    if !Parse(items) then None
    else
      var total := SumOf(items, Charged(src.rate));
      match Select(src.utxos(total), total)
      case NotEnough => None
      case Selected(inputs, change) => Some(Transaction(inputs, Payouts(items, src) + ChangeTo(src.bank, change)))
  }

  /** A transaction is built if and only if every target parses and the unspent outputs
      cover what is taken. It pays each asset in turn, converted, under its withdrawal,
      and behind them gives the bank what its inputs hold beyond that, if anything. */
  lemma BuildIff(txs: seq<WithdrawTx>, src: Source)
    requires src.rate > 0.0 && SumOf(Flatten(txs), Charged(src.rate)) >= 0
    requires Positive(src.utxos(SumOf(Flatten(txs), Charged(src.rate))))
    ensures var items, r, taken := Flatten(txs), Build(txs, src), SumOf(Flatten(txs), Charged(src.rate));
            && (r.Some? <==> (forall i | 0 <= i < |items| :: items[i].asset.target.Encodes?)
                             && SumOf(src.utxos(taken), Amount()) >= taken)
            && (r.Some? ==>
                  var outputs, change := r.value.outputs, SumOf(r.value.inputs, Amount()) - taken;
                  && change >= 0 && |outputs| == |items| + (if change > 0 then 1 else 0)
                  && (forall i | 0 <= i < |items| ::
                        outputs[i] == Output(items[i].asset.target.hash, Conv(items[i].asset.crossChain, src.rate),
                                             Withdraw(src.bank, items[i].sideTx)))
                  && (change > 0 ==> outputs[|items|] == Output(src.bank, change, Plain)))
  {
    var taken := SumOf(Flatten(txs), Charged(src.rate));
    SelectionBalances(src.utxos(taken), taken);
  }

  method ParseUserWithdrawTransactions(txs: seq<WithdrawTx>) returns (items: seq<Item>)
    ensures items == Flatten(txs)
  {
    items := [];
    for i := 0 to |txs|
      invariant items == Flatten(txs[..i])
    {
      assert txs[..i + 1][..i] == txs[..i];
      for j := 0 to |txs[i].assets|
        invariant items == Flatten(txs[..i]) + Items(txs[i])[..j]
      {
        items := items + [Item(txs[i].assets[j], txs[i].id)];
      }
      assert Items(txs[i])[..|txs[i].assets|] == Items(txs[i]);
    }
    assert txs[..|txs|] == txs;
  }

  method CreateWithdrawTransaction(txs: seq<WithdrawTx>, src: Source) returns (r: Option<Transaction>)
    requires src.rate > 0.0
    ensures r == Build(txs, src)
  {
    var items := ParseUserWithdrawTransactions(txs);
    var total := 0;
    var outputs: seq<Output> := [];
    for i := 0 to |items|
      invariant Parse(items[..i]) && outputs == Payouts(items[..i], src)
      invariant total == SumOf(items[..i], Charged(src.rate))
    {
      if items[i].asset.target.Malformed? {
        assert !Parse(items);
        return None;
      }
      SumTake(items, i, Charged(src.rate));
      outputs := outputs + [PayoutOf(items[i], src)];
      total := total + Conv(items[i].asset.amount, src.rate);
    }
    SumWhole(items, Charged(src.rate));
    assert items[..|items|] == items;
    var selection := SelectInputs(src.utxos(total), total);
    match selection {
      case NotEnough => return None;
      case Selected(inputs, change) =>
        assert outputs + [] == outputs;
        if change > 0 {
          outputs := outputs + [Output(src.bank, change, Plain)];
        }
        return Some(Transaction(inputs, outputs));
    }
  }

  // ---- what goes into a proposal -------------------------------------------------------------

  const MIN_CROSS_CHAIN_TX_FEE := 10000

  predicate Payable(a: Asset, frozen: set<Address>) {
    && a.crossChain > 0 && a.amount - a.crossChain >= MIN_CROSS_CHAIN_TX_FEE
    && a.target.Encodes? && a.target !in frozen
  }

  /** A withdrawal that goes into a proposal. */
  predicate Proposable(tx: WithdrawTx, frozen: set<Address>) {
    tx.assets != [] && forall i | 0 <= i < |tx.assets| :: Payable(tx.assets[i], frozen)
  }

  function Filter(txs: seq<WithdrawTx>, frozen: set<Address>): seq<WithdrawTx> {
    if txs == [] then []
    else Filter(txs[..|txs| - 1], frozen) + if Proposable(txs[|txs| - 1], frozen) then [txs[|txs| - 1]] else []
  }

  /** A payout goes into a proposal if it pays something, leaves a fee of at least 10000,
      and its target parses and is not frozen. */
  predicate GoodPayout(a: Asset, frozen: set<Address>) {
    a.crossChain > 0 && a.amount - a.crossChain >= 10000 && a.target.Encodes? && a.target !in frozen
  }

  /** The filter keeps exactly the withdrawals that have payouts, all of them good, each
      as often as before and in their order. */
  lemma {:induction false} FilterKeeps(rows: seq<WithdrawTx>, frozen: set<Address>, tx: WithdrawTx)
    ensures Proposable(tx, frozen) <==>
              |tx.assets| >= 1 && forall i | 0 <= i < |tx.assets| :: GoodPayout(tx.assets[i], frozen)
    ensures multiset(Filter(rows, frozen))[tx] == if Proposable(tx, frozen) then multiset(rows)[tx] else 0
    ensures tx in Filter(rows, frozen) <==> tx in rows && Proposable(tx, frozen)
  {
    assert forall i | 0 <= i < |tx.assets| :: Payable(tx.assets[i], frozen) <==> GoodPayout(tx.assets[i], frozen);
    if rows != [] {
      var init, last := rows[..|rows| - 1], rows[|rows| - 1];
      FilterKeeps(init, frozen, tx);
      assert rows == init + [last];
    }
    assert tx in rows <==> tx in multiset(rows);
    assert tx in Filter(rows, frozen) <==> tx in multiset(Filter(rows, frozen));
  }

  lemma {:induction false} FilterInOrder(a: seq<WithdrawTx>, b: seq<WithdrawTx>, frozen: set<Address>)
    ensures Filter(a + b, frozen) == Filter(a, frozen) + Filter(b, frozen)
  {
    if b == [] {
      assert a + b == a;
    } else {
      assert (a + b)[..|a + b| - 1] == a + b[..|b| - 1];
      FilterInOrder(a, b[..|b| - 1], frozen);
    }
  }

  method FilterWithdrawals(txs: seq<WithdrawTx>, frozen: set<Address>) returns (targets: seq<WithdrawTx>)
    ensures targets == Filter(txs, frozen)
  {
    targets := [];
    for i := 0 to |txs|
      invariant targets == Filter(txs[..i], frozen)
    {
      assert txs[..i + 1][..i] == txs[..i];
      var ignore, j := false, 0;
      while j < |txs[i].assets|
        invariant 0 <= j <= |txs[i].assets| && !ignore
        invariant forall x | 0 <= x < j :: Payable(txs[i].assets[x], frozen)
      {
        var w := txs[i].assets[j];
        if w.crossChain <= 0 || w.amount - w.crossChain < MIN_CROSS_CHAIN_TX_FEE {
          ignore := true;
          break;
        }
        if w.target.Malformed? {
          ignore := true;
          break;
        }
        if w.target in frozen {
          ignore := true;
          break;
        }
        j := j + 1;
      }
      assert ignore ==> !Payable(txs[i].assets[j], frozen);
      if ignore {
        continue;
      }
      if |txs[i].assets| != 0 {
        targets := targets + [txs[i]];
      }
    }
    assert txs[..|txs|] == txs;
  }

  const BATCH := 100

  /** The last batch size, a multiple of 100 or everything, that can be built and
      fits into a block. */
  ghost predicate Best(targets: seq<WithdrawTx>, src: Source, fits: Transaction -> bool, k: nat)
    requires src.rate > 0.0
  {
    && BatchSize(targets, k) && Usable(targets, src, fits, k)
    && forall k' | k < k' && BatchSize(targets, k') :: !Usable(targets, src, fits, k')
  }

  predicate BatchSize(targets: seq<WithdrawTx>, k: nat) {
    0 < k <= |targets| && (k % BATCH == 0 || k == |targets|)
  }

  predicate Usable(targets: seq<WithdrawTx>, src: Source, fits: Transaction -> bool, k: nat)
    requires src.rate > 0.0 && k <= |targets|
  {
    Build(targets[..k], src).Some? && fits(Build(targets[..k], src).value)
  }

  method ChooseBatch(targets: seq<WithdrawTx>, src: Source, fits: Transaction -> bool)
    returns (r: Option<Transaction>, ghost best: nat)
    requires src.rate > 0.0
    ensures r.Some? ==> Best(targets, src, fits, best) && r == Build(targets[..best], src)
    ensures r.None? ==> forall k | BatchSize(targets, k) :: !Usable(targets, src, fits, k)
  {
    r, best := None, 0;
    var i, targetIndex := 0, 0;
    while i < |targets|
      invariant i % BATCH == 0 && targetIndex == (if i <= |targets| then i else |targets|) && i < |targets| + BATCH
      invariant r.Some? ==> BatchSize(targets, best) && best <= targetIndex && Usable(targets, src, fits, best)
      invariant r.Some? ==> r == Build(targets[..best], src)
      invariant r.None? ==> best == 0
      invariant forall k | best < k <= targetIndex && BatchSize(targets, k) :: !Usable(targets, src, fits, k)
    {
      ghost var before := i;
      i := i + BATCH;
      targetIndex := |targets|;
      if targetIndex > i {
        targetIndex := i;
      }
      OneBatch(targets, before, targetIndex);
      var tx := CreateWithdrawTransaction(targets[..targetIndex], src);
      if tx.None? {
        continue;
      }
      if fits(tx.value) {
        r := tx;
        best := targetIndex;
      }
    }
  }

  /** What is offered: every hundred, and everything. */
  lemma BatchSizes(targets: seq<WithdrawTx>, k: nat)
    ensures BatchSize(targets, k) <==> (exists i :: i >= 1 && Hundreds(i) == k <= |targets|) || 0 < k == |targets|
  {
    if BatchSize(targets, k) && k % BATCH == 0 {
      assert Hundreds(k / BATCH) == k;
    }
  }

  function Hundreds(i: int): int {
    100 * i
  }

  /** There is no batch size strictly between two consecutive ones. */
  lemma OneBatch(targets: seq<WithdrawTx>, before: nat, next: nat)
    requires before % BATCH == 0 && before < |targets|
    requires next == if |targets| > before + BATCH then before + BATCH else |targets|
    ensures BatchSize(targets, next)
    ensures forall k | before < k < next :: !BatchSize(targets, k)
  {
  }
}
