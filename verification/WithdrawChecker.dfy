/** What every other arbiter recomputes before it signs a withdraw transaction
    (checkWithdrawFromSideChainPayload): the condition, and the loops that decide it. */
module WithdrawChecker {
  import opened CoinSelection
  import opened Lists
  import opened Options
  import opened Sums
  import opened WithdrawBuilder
  import opened Withdrawals

  /** A side chain as the checking node sees it: the rows of its own table, which the
      database hands out in some order, and the answers of the side-chain node. */
  datatype SideChain = SideChain(
    rate: real,
    db: map<nat, seq<Asset>>,
    order: set<nat> -> seq<nat>,
    rpc: map<nat, seq<Asset>>)

  datatype World = World(chains: map<ProgramHash, SideChain>, frozen: set<Address>) {
    ghost predicate Valid() {
      forall key | key in chains :: ValidChain(chains[key])
    }
  }

  ghost predicate ValidChain(side: SideChain) {
    side.rate > 0.0 && forall s: set<nat> :: Distinct(side.order(s)) && Elements(side.order(s)) == s
  }

  ghost function SomeOrder(s: set<nat>): (rows: seq<nat>)
    ensures Distinct(rows) && Elements(rows) == s
  {
    if s == {} then []
    else
      var h :| h in s;
      var rows := SomeOrder(s - {h});
      DistinctSnoc(rows, h);
      ElementsSnoc(rows, h);
      rows + [h]
  }

  /** The assumption on the order of rows can be met. */
  lemma ChainsExist(rate: real, table: map<nat, seq<Asset>>) returns (side: SideChain)
    requires rate > 0.0
    ensures ValidChain(side) && side.rate == rate && side.db == side.rpc == table
  {
    side := SideChain(rate, table, s => SomeOrder(s), table);
  }

  // ---- which withdrawals a transaction claims to pay -----------------------------------

  function Hashes(outputs: seq<Output>): seq<nat> {
    if outputs == [] then []
    else
      var before, o := Hashes(outputs[..|outputs| - 1]), outputs[|outputs| - 1];
      before + if o.kind.Withdraw? then [o.kind.sideTx] else []
  }

  /** The chain named by the first withdraw output. */
  function ChainOf(outputs: seq<Output>): Option<ProgramHash> {
    if outputs == [] then None
    else
      var before, o := ChainOf(outputs[..|outputs| - 1]), outputs[|outputs| - 1];
      if before.Some? then before
      else if o.kind.Withdraw? then Some(o.kind.genesis) else None
  }

  predicate OneChain(outputs: seq<Output>, key: ProgramHash) {
    forall i | 0 <= i < |outputs| && outputs[i].kind.Withdraw? :: outputs[i].kind.genesis == key
  }

  /** There are withdraw outputs, and all of them name this chain. */
  predicate AllName(outputs: seq<Output>, key: ProgramHash) {
    (exists i :: 0 <= i < |outputs| && outputs[i].kind.Withdraw?) &&
    forall i | 0 <= i < |outputs| && outputs[i].kind.Withdraw? :: outputs[i].kind.genesis == key
  }

  lemma {:induction false} ChainIs(outputs: seq<Output>)
    ensures ChainOf(outputs).None? <==> forall i | 0 <= i < |outputs| :: !outputs[i].kind.Withdraw?
    ensures ChainOf(outputs).Some? ==>
              exists i :: 0 <= i < |outputs| && outputs[i].kind.Withdraw? && ChainOf(outputs) == Some(outputs[i].kind.genesis)
  {
    if outputs != [] {
      var n := |outputs| - 1;
      ChainIs(outputs[..n]);
      assert forall i | 0 <= i < n :: outputs[..n][i] == outputs[i];
      if ChainOf(outputs[..n]).Some? {
        var i :| 0 <= i < n && outputs[..n][i].kind.Withdraw? && ChainOf(outputs[..n]) == Some(outputs[..n][i].kind.genesis);
        assert outputs[i].kind.Withdraw?;
      }
    }
  }

  lemma ChainNamed(outputs: seq<Output>, key: ProgramHash)
    ensures ChainOf(outputs) == Some(key) && OneChain(outputs, key) <==> AllName(outputs, key)
  {
    ChainIs(outputs);
    if AllName(outputs, key) {
      var i :| 0 <= i < |outputs| && outputs[i].kind.Withdraw?;
      assert ChainOf(outputs).Some?;
    }
  }

  /** From the database when it has one row for every hash listed, repetitions
      included; otherwise from the side chain, hash by hash. */
  function Load(side: SideChain, hashes: seq<nat>): Option<seq<WithdrawTx>>
  {
    var rows := side.order(Elements(hashes) * side.db.Keys);
    if |rows| == |hashes| then FromTable(side.db, rows) else FromTable(side.rpc, hashes)
  }

  function FromTable(table: map<nat, seq<Asset>>, hashes: seq<nat>): Option<seq<WithdrawTx>> {
    if hashes == [] then Some([])
    else
      var before, h := FromTable(table, hashes[..|hashes| - 1]), hashes[|hashes| - 1];
      if before.Some? && h in table then Some(before.value + [WithdrawTx(h, table[h])]) else None
  }

  // ---- the amounts -------------------------------------------------------------------------

  predicate Sane(a: Asset, frozen: set<Address>) {
    a.target !in frozen && 0 <= a.crossChain < a.amount
  }

  ghost predicate Covers(frozen: set<Address>, rate: real, bank: ProgramHash, tx: Transaction, items: seq<Item>)
    requires rate > 0.0
  {
    && (forall x | x in items :: Sane(x.asset, frozen))
    && SumOf(tx.inputs, Amount()) == SumOf(tx.outputs, Value()) + SumOf(items, Fee(rate))
    && |items| == SumOf(tx.outputs, OneNotTo(bank)) && |Targets(items)| == |Payees(tx.outputs)|
    && (forall h | h in Payees(tx.outputs) ::
          Encodes(h) in Targets(items) && Conv(SumOf(items, Owed(Encodes(h))), rate) == SumOf(tx.outputs, ValueTo(h)))
    && SumOf(items, Credited(rate)) == SumOf(tx.outputs, ValueNotTo(bank))
  }

  ghost predicate Accepts(w: World, tx: Transaction)
    requires w.Valid()
  {
    var chain := ChainOf(tx.outputs);
    && chain.Some? && chain.value in w.chains && OneChain(tx.outputs, chain.value)
    && var side := w.chains[chain.value];
       var loaded := Load(side, Hashes(tx.outputs));
       loaded.Some? && Covers(w.frozen, side.rate, chain.value, tx, Flatten(loaded.value))
  }

  /** Before the change of the withdraw format (checkWithdrawFromSidechainPayload): the
      chain and the hashes stand in the payload, and frozen addresses are looked for
      only in what the side chain answers, not in the rows of the database. */
  ghost predicate AcceptsOld(w: World, tx: Transaction, genesis: ProgramHash, hashes: seq<nat>)
    requires w.Valid()
  {
    && genesis in w.chains
    && var side := w.chains[genesis];
       var loaded := Load(side, hashes);
       loaded.Some? && Covers(FrozenFor(side, hashes, w.frozen), side.rate, genesis, tx, Flatten(loaded.value))
  }

  function FrozenFor(side: SideChain, hashes: seq<nat>, frozen: set<Address>): set<Address> {
    if |side.order(Elements(hashes) * side.db.Keys)| == |hashes| then {} else frozen
  }

  // ---- the loops -----------------------------------------------------------------------------

  method ReadTable(table: map<nat, seq<Asset>>, hashes: seq<nat>) returns (r: Option<seq<WithdrawTx>>)
    ensures r == FromTable(table, hashes)
  {
    var txs: seq<WithdrawTx> := [];
    for i := 0 to |hashes|
      invariant FromTable(table, hashes[..i]) == Some(txs)
    {
      assert hashes[..i + 1][..i] == hashes[..i];
      if hashes[i] !in table {
        TableGap(table, hashes, i);
        return None;
      }
      txs := txs + [WithdrawTx(hashes[i], table[hashes[i]])];
    }
    assert hashes[..|hashes|] == hashes;
    return Some(txs);
  }

  lemma {:induction false} TableGap(table: map<nat, seq<Asset>>, hashes: seq<nat>, i: nat)
    requires i < |hashes| && hashes[i] !in table
    ensures FromTable(table, hashes).None?
    decreases |hashes|
  {
    if i < |hashes| - 1 {
      TableGap(table, hashes[..|hashes| - 1], i);
    }
  }

  method FindChain(w: World, outputs: seq<Output>) returns (ok: bool, key: ProgramHash, hashes: seq<nat>)
    ensures ok <==>
              ChainOf(outputs).Some? && ChainOf(outputs).value in w.chains && OneChain(outputs, ChainOf(outputs).value)
    ensures ok ==> hashes == Hashes(outputs) && ChainOf(outputs) == Some(key)
  {
    key := ProgramHash(0, 0);
    hashes := [];
    var chain: Option<ProgramHash> := None;
    for i := 0 to |outputs|
      invariant hashes == Hashes(outputs[..i]) && chain == ChainOf(outputs[..i])
      invariant chain.None? <==> hashes == []
      invariant chain.Some? ==> chain.value in w.chains && OneChain(outputs[..i], chain.value)
      invariant chain.None? ==> forall j | 0 <= j < i :: !outputs[j].kind.Withdraw?
    {
      assert outputs[..i + 1][..i] == outputs[..i];
      if !outputs[i].kind.Withdraw? {
        continue;
      }
      hashes := hashes + [outputs[i].kind.sideTx];
      FirstChain(outputs, i);
      if chain.None? {
        if outputs[i].kind.genesis !in w.chains {
          return false, key, hashes;
        }
        chain := Some(outputs[i].kind.genesis);
      } else if chain.value != outputs[i].kind.genesis {
        return false, key, hashes;
      }
    }
    assert outputs[..|outputs|] == outputs;
    if chain.None? {
      return false, key, hashes;
    }
    return true, chain.value, hashes;
  }

  /** The first chain named stays the one compared with. */
  lemma {:induction false} FirstChain(outputs: seq<Output>, i: nat)
    requires i < |outputs|
    ensures ChainOf(outputs[..i + 1]).Some? ==> ChainOf(outputs) == ChainOf(outputs[..i + 1])
    decreases |outputs|
  {
    if i < |outputs| - 1 {
      assert outputs[..|outputs| - 1][..i + 1] == outputs[..i + 1];
      FirstChain(outputs[..|outputs| - 1], i);
    } else {
      assert outputs[..i + 1] == outputs;
    }
  }

  /** Total output, and what each ordinary address receives. */
  method AddUpOutputs(outputs: seq<Output>) returns (total: int, paid: map<ProgramHash, int>)
    ensures total == SumOf(outputs, Value()) && paid.Keys == Payees(outputs)
    ensures forall h | h in paid :: paid[h] == SumOf(outputs, ValueTo(h))
  {
    total, paid := 0, map[];
    for i := 0 to |outputs|
      invariant total == SumOf(outputs[..i], Value()) && paid.Keys == Payees(outputs[..i])
      invariant forall h | h in paid :: paid[h] == SumOf(outputs[..i], ValueTo(h))
    {
      var o := outputs[i];
      SumTake(outputs, i, Value());
      NextPayee(outputs, i);
      total := total + o.value;
      forall h | h in paid
        ensures SumOf(outputs[..i + 1], ValueTo(h)) == SumOf(outputs[..i], ValueTo(h)) + ValueTo(h)(o) {
        SumTake(outputs, i, ValueTo(h));
      }
      if CrossChain(o.to) {
        continue;
      }
      paid := if o.to in paid then paid[o.to := paid[o.to] + o.value] else paid[o.to := o.value];
    }
    SumWhole(outputs, Value());
    assert outputs[..|outputs|] == outputs;
  }

  lemma NextPayee(outputs: seq<Output>, i: nat)
    requires i < |outputs|
    ensures var o := outputs[i];
            && Payees(outputs[..i + 1]) == Payees(outputs[..i]) + (if CrossChain(o.to) then {} else {o.to})
            && (!CrossChain(o.to) && o.to !in Payees(outputs[..i]) ==> SumOf(outputs[..i + 1], ValueTo(o.to)) == o.value)
  {
    var o := outputs[i];
    assert outputs[..i + 1] == outputs[..i] + [o];
    SumTake(outputs, i, ValueTo(o.to));
    if !CrossChain(o.to) && o.to !in Payees(outputs[..i]) {
      SumBounds(outputs[..i], ValueTo(o.to), 0, 0);
    }
  }

  /** The fees and credits of the withdrawals, and what is owed to each address; or
      a withdrawal that must not be paid. */
  method AddUpWithdrawals(items: seq<Item>, rate: real, frozen: set<Address>)
    returns (sane: bool, fee: int, credited: int, owed: map<Address, int>)
    requires rate > 0.0
    ensures sane <==> forall i | 0 <= i < |items| :: Sane(items[i].asset, frozen)
    ensures sane ==> fee == SumOf(items, Fee(rate)) && credited == SumOf(items, Credited(rate))
    ensures sane ==> OwedMap(items, owed)
  {
    sane, fee, credited, owed := true, 0, 0, map[];
    for i := 0 to |items|
      invariant sane && forall j | 0 <= j < i :: Sane(items[j].asset, frozen)
      invariant fee == SumOf(items[..i], Fee(rate)) && credited == SumOf(items[..i], Credited(rate))
      invariant OwedMap(items[..i], owed)
    {
      var w := items[i].asset;
      if w.target in frozen {
        return false, fee, credited, owed;
      }
      if w.crossChain < 0 || w.amount <= 0 || w.amount - w.crossChain <= 0 || w.crossChain >= w.amount {
        return false, fee, credited, owed;
      }
      SumTake(items, i, Fee(rate));
      SumTake(items, i, Credited(rate));
      credited := credited + Conv(w.crossChain, rate);
      fee := fee + Conv(w.amount - w.crossChain, rate);
      owed := AddOwed(items, i, owed);
    }
    assert items[..|items|] == items;
  }

  ghost predicate OwedMap(items: seq<Item>, owed: map<Address, int>) {
    owed.Keys == Targets(items) && forall a | a in owed :: owed[a] == SumOf(items, Owed(a))
  }

  method AddOwed(items: seq<Item>, i: nat, owed: map<Address, int>) returns (owed': map<Address, int>)
    requires i < |items| && OwedMap(items[..i], owed)
    ensures OwedMap(items[..i + 1], owed')
  {
    var w := items[i].asset;
    NextTarget(items, i);
    forall a | a in owed ensures SumOf(items[..i + 1], Owed(a)) == SumOf(items[..i], Owed(a)) + Owed(a)(items[i]) {
      SumTake(items, i, Owed(a));
    }
    owed' := if w.target in owed then owed[w.target := owed[w.target] + w.crossChain] else owed[w.target := w.crossChain];
  }

  lemma NextTarget(items: seq<Item>, i: nat)
    requires i < |items|
    ensures var a := items[i].asset.target;
            && Targets(items[..i + 1]) == Targets(items[..i]) + {a}
            && (a !in Targets(items[..i]) ==> SumOf(items[..i + 1], Owed(a)) == items[i].asset.crossChain)
  {
    var a := items[i].asset.target;
    assert items[..i + 1] == items[..i] + [items[i]];
    SumTake(items, i, Owed(a));
    if a !in Targets(items[..i]) {
      SumBounds(items[..i], Owed(a), 0, 0);
    }
  }

  /** What does not go back to the bank, and how many such outputs there are. */
  method AddUpPayouts(outputs: seq<Output>, bank: ProgramHash) returns (total: int, count: int)
    ensures total == SumOf(outputs, ValueNotTo(bank)) && count == SumOf(outputs, OneNotTo(bank))
  {
    total, count := 0, 0;
    for i := 0 to |outputs|
      invariant total == SumOf(outputs[..i], ValueNotTo(bank)) && count == SumOf(outputs[..i], OneNotTo(bank))
    {
      SumTake(outputs, i, ValueNotTo(bank));
      SumTake(outputs, i, OneNotTo(bank));
      if outputs[i].to != bank {
        total := total + outputs[i].value;
        count := count + 1;
      }
    }
    SumWhole(outputs, ValueNotTo(bank));
    SumWhole(outputs, OneNotTo(bank));
  }

  method CompareAddresses(paid: map<ProgramHash, int>, owed: map<Address, int>, rate: real) returns (ok: bool)
    requires rate > 0.0
    ensures ok <==> forall h | h in paid :: Encodes(h) in owed && Conv(owed[Encodes(h)], rate) == paid[h]
  {
    var todo := paid.Keys;
    while todo != {}
      invariant todo <= paid.Keys
      invariant forall h | h in paid && h !in todo :: Encodes(h) in owed && Conv(owed[Encodes(h)], rate) == paid[h]
      decreases todo
    {
      var h :| h in todo;
      todo := todo - {h};
      if Encodes(h) !in owed || Conv(owed[Encodes(h)], rate) != paid[h] {
        return false;
      }
    }
    return true;
  }

  method CheckAmounts(frozen: set<Address>, rate: real, bank: ProgramHash, tx: Transaction,
                      items: seq<Item>) returns (ok: bool)
    requires rate > 0.0
    ensures ok <==> Covers(frozen, rate, bank, tx, items)
  {
    var input := 0;
    for i := 0 to |tx.inputs|
      invariant input == SumOf(tx.inputs[..i], Amount())
    {
      SumTake(tx.inputs, i, Amount());
      input := input + tx.inputs[i].amount;
    }
    SumWhole(tx.inputs, Amount());
    var output, paid := AddUpOutputs(tx.outputs);
    var sane, fee, credited, owed := AddUpWithdrawals(items, rate, frozen);
    if !sane {
      return false;
    }
    if input != output + fee {
      return false;
    }
    var payout, payouts := AddUpPayouts(tx.outputs, bank);
    assert |owed| == |owed.Keys| && |paid| == |paid.Keys|;
    if |items| != payouts || |owed| != |paid| {
      return false;
    }
    var same := CompareAddresses(paid, owed, rate);
    if !same {
      return false;
    }
    return credited == payout;
  }

  method CheckWithdraw(w: World, tx: Transaction) returns (ok: bool)
    requires w.Valid()
    ensures ok <==> Accepts(w, tx)
  {
    var found, key, hashes := FindChain(w, tx.outputs);
    if !found {
      return false;
    }
    var side := w.chains[key];
    assert ValidChain(side);
    var rows := side.order(Elements(hashes) * side.db.Keys);
    var txs;
    if |rows| != |hashes| {
      txs := ReadTable(side.rpc, hashes);
    } else {
      txs := ReadTable(side.db, rows);
    }
    if txs.None? {
      return false;
    }
    var items := ParseUserWithdrawTransactions(txs.value);
    ok := CheckAmounts(w.frozen, side.rate, key, tx, items);
  }

  method CheckWithdrawOld(w: World, tx: Transaction, genesis: ProgramHash, hashes: seq<nat>) returns (ok: bool)
    requires w.Valid()
    ensures ok <==> AcceptsOld(w, tx, genesis, hashes)
  {
    if genesis !in w.chains {
      return false;
    }
    var side := w.chains[genesis];
    assert ValidChain(side);
    var rows := side.order(Elements(hashes) * side.db.Keys);
    var txs;
    var frozen: set<Address> := {};
    if |rows| != |hashes| {
      txs := ReadTable(side.rpc, hashes);
      frozen := w.frozen;
    } else {
      txs := ReadTable(side.db, rows);
    }
    if txs.None? {
      return false;
    }
    var items := ParseUserWithdrawTransactions(txs.value);
    ok := CheckAmounts(frozen, side.rate, genesis, tx, items);
  }
}
