/** What acceptance of a withdraw transaction is worth when withdrawals may be listed
    more than once. The checker never tests that they are not: it counts a withdrawal as
    often as it is listed, so soundness over the set of listed withdrawals has a
    condition. */
module WithdrawExactness {
  import opened CoinSelection
  import opened Lists
  import opened Options
  import opened Sums
  import opened WithdrawBuilder
  import opened WithdrawChecker
  import opened WithdrawCompleteness
  import opened WithdrawSoundness
  import opened Withdrawals

  // ---- each once, and the repetitions ------------------------------------------------------

  /** Every hash of the list, where it is first listed. */
  function Once(hashes: seq<nat>): seq<nat> {
    if hashes == [] then []
    else
      var init, last := hashes[..|hashes| - 1], hashes[|hashes| - 1];
      if last in init then Once(init) else Once(init) + [last]
  }

  /** The entries that repeat an earlier one. */
  function Again(hashes: seq<nat>): seq<nat> {
    if hashes == [] then []
    else
      var init, last := hashes[..|hashes| - 1], hashes[|hashes| - 1];
      if last in init then Again(init) + [last] else Again(init)
  }

  lemma {:induction false} OnceIs(hashes: seq<nat>)
    ensures Distinct(Once(hashes)) && Elements(Once(hashes)) == Elements(hashes)
  {
    if hashes != [] {
      var init, last := hashes[..|hashes| - 1], hashes[|hashes| - 1];
      assert hashes == init + [last];
      OnceIs(init);
      ElementsSnoc(init, last);
      if last !in init {
        assert last !in Elements(init);
        DistinctSnoc(Once(init), last);
        ElementsSnoc(Once(init), last);
      }
    }
  }

  lemma {:induction false} AgainIs(hashes: seq<nat>, h: nat)
    ensures h in Again(hashes) <==> multiset(hashes)[h] >= 2
  {
    if hashes != [] {
      var init, last := hashes[..|hashes| - 1], hashes[|hashes| - 1];
      assert hashes == init + [last];
      AgainIs(init, h);
      assert last in init <==> multiset(init)[last] >= 1;
    }
  }

  lemma {:induction false} NothingAgain(hashes: seq<nat>)
    ensures Again(hashes) == [] <==> Distinct(hashes)
  {
    if hashes != [] {
      NothingAgain(hashes[..|hashes| - 1]);
    }
  }

  lemma {:induction false} OnceAndAgain(hashes: seq<nat>, f: nat -> int)
    ensures SumOf(hashes, f) == SumOf(Once(hashes), f) + SumOf(Again(hashes), f)
  {
    if hashes != [] {
      var init, last := hashes[..|hashes| - 1], hashes[|hashes| - 1];
      OnceAndAgain(init, f);
      SumSnoc(Once(init), last, f);
      SumSnoc(Again(init), last, f);
    }
  }

  // ---- sums over the listed withdrawals -------------------------------------------------------

  /** Where the checking node looks the withdrawals up. */
  function Table(side: SideChain, hashes: seq<nat>): map<nat, seq<Asset>> {
    if OwnRows(side, hashes) then side.db else side.rpc
  }

  function ItemsOf(table: map<nat, seq<Asset>>, id: nat): seq<Item> {
    if id in table then Items(WithdrawTx(id, table[id])) else []
  }

  /** A quantity of one withdrawal, over its assets. */
  function Each(table: map<nat, seq<Asset>>, f: Item -> int): nat -> int {
    (id: nat) => SumOf(ItemsOf(table, id), f)
  }

  lemma {:induction false} TableSum(table: map<nat, seq<Asset>>, hs: seq<nat>, f: Item -> int)
    requires FromTable(table, hs).Some?
    ensures SumOf(Flatten(FromTable(table, hs).value), f) == SumOf(hs, Each(table, f))
  {
    if hs != [] {
      var init, h := hs[..|hs| - 1], hs[|hs| - 1];
      assert hs == init + [h];
      TableSum(table, init, f);
      OneMoreRow(table, init, h);
      SumConcat(Flatten(FromTable(table, init).value), ItemsOf(table, h), f);
    }
  }

  lemma {:induction false} TableItems(table: map<nat, seq<Asset>>, hs: seq<nat>, id: nat)
    requires FromTable(table, hs).Some? && id in hs
    ensures id in table && forall x | x in ItemsOf(table, id) :: x in Flatten(FromTable(table, hs).value)
  {
    var init, h := hs[..|hs| - 1], hs[|hs| - 1];
    assert hs == init + [h];
    OneMoreRow(table, init, h);
    if id != h {
      TableItems(table, init, id);
    }
  }

  /** Whatever is summed over the items loaded is summed over the hashes listed. */
  lemma LoadedSum(side: SideChain, hashes: seq<nat>, f: Item -> int)
    requires ValidChain(side) && Load(side, hashes).Some?
    ensures SumOf(Flatten(Load(side, hashes).value), f) == SumOf(hashes, Each(Table(side, hashes), f))
  {
    OwnRowsIff(side, hashes);
    RowsCount(side, hashes);
    if OwnRows(side, hashes) {
      var rows := side.order(Elements(hashes) * side.db.Keys);
      TableSum(side.db, rows, f);
      DistinctMultiset(rows);
      DistinctMultiset(hashes);
      SumPermutation(rows, hashes, Each(side.db, f));
    } else {
      TableSum(side.rpc, hashes, f);
    }
  }

  lemma LoadedItem(side: SideChain, hashes: seq<nat>, id: nat, x: Item)
    requires ValidChain(side) && Load(side, hashes).Some? && id in hashes
    requires x in ItemsOf(Table(side, hashes), id)
    ensures x in Flatten(Load(side, hashes).value)
  {
    OwnRowsIff(side, hashes);
    RowsCount(side, hashes);
    if OwnRows(side, hashes) {
      var rows := side.order(Elements(hashes) * side.db.Keys);
      assert Elements(hashes) == Elements(rows) && id in Elements(hashes);
      TableItems(side.db, rows, id);
    } else {
      TableItems(side.rpc, hashes, id);
    }
  }

  // ---- the excess ------------------------------------------------------------------------------

  predicate PayoutsNotNegative(table: map<nat, seq<Asset>>, hs: seq<nat>) {
    forall id, x | id in hs && x in ItemsOf(table, id) :: x.asset.crossChain >= 0
  }

  /** Converting what a part of the list owes at once gives at least what its payouts
      give one by one. */
  lemma {:induction false} PartCarry(table: map<nat, seq<Asset>>, hs: seq<nat>, a: Address, rate: real)
    requires rate > 0.0 && PayoutsNotNegative(table, hs)
    ensures var owed := SumOf(hs, Each(table, Owed(a)));
            owed >= 0 && Conv(owed, rate) >= SumOf(hs, Each(table, CreditedTo(a, rate))) >= 0
  {
    if hs == [] {
      ConvAdd(0, 0, rate);
    } else {
      var init, id := hs[..|hs| - 1], hs[|hs| - 1];
      PartCarry(table, init, a, rate);
      var items := ItemsOf(table, id);
      assert NotNegative(items) by {
        forall i | 0 <= i < |items| ensures items[i].asset.crossChain >= 0 {
          assert id in hs && items[i] in items;
        }
      }
      AddressCarry(items, a, rate);
      CreditedNotNegative(items, a, rate);
      ConvAdd(SumOf(init, Each(table, Owed(a))), SumOf(items, Owed(a)), rate);
    }
  }

  lemma CreditedNotNegative(items: seq<Item>, a: Address, rate: real)
    requires rate > 0.0 && NotNegative(items)
    ensures SumOf(items, CreditedTo(a, rate)) >= 0
    ensures SumOf(items, CreditedTo(a, rate)) == 0 <==>
              forall x | x in items && x.asset.target == a :: Conv(x.asset.crossChain, rate) == 0
  {
    forall x | x in items ensures CreditedTo(a, rate)(x) >= 0 {
      ConvAdd(x.asset.crossChain, 0, rate);
    }
    SumVanishes(items, CreditedTo(a, rate));
  }

  /** What the withdrawals of the list, each counted once, owe to an address. */
  function OwedOnce(side: SideChain, hashes: seq<nat>, h: ProgramHash): int {
    SumOf(Once(hashes), Each(Table(side, hashes), Owed(Encodes(h))))
  }

  function OwedAgain(side: SideChain, hashes: seq<nat>, h: ProgramHash): int {
    SumOf(Again(hashes), Each(Table(side, hashes), Owed(Encodes(h))))
  }

  function CreditedOnce(side: SideChain, hashes: seq<nat>, h: ProgramHash): int
    requires side.rate > 0.0
  {
    SumOf(Once(hashes), Each(Table(side, hashes), CreditedTo(Encodes(h), side.rate)))
  }

  /** What the repetitions are credited, payout by payout. */
  function Excess(side: SideChain, hashes: seq<nat>, h: ProgramHash): int
    requires side.rate > 0.0
  {
    SumOf(Again(hashes), Each(Table(side, hashes), CreditedTo(Encodes(h), side.rate)))
  }

  /** The part of the check that both versions share: the amounts of a transaction that
      lists these hashes add up. */
  ghost predicate Passes(frozen: set<Address>, side: SideChain, bank: ProgramHash, tx: Transaction, hashes: seq<nat>) {
    && ValidChain(side) && CrossChain(bank) && (forall o | o in tx.outputs :: o.value >= 0)
    && Load(side, hashes).Some? && Covers(frozen, side.rate, bank, tx, Flatten(Load(side, hashes).value))
  }

  lemma PartsNotNegative(frozen: set<Address>, side: SideChain, bank: ProgramHash, tx: Transaction, hashes: seq<nat>)
    requires Passes(frozen, side, bank, tx, hashes)
    ensures PayoutsNotNegative(Table(side, hashes), Once(hashes)) && PayoutsNotNegative(Table(side, hashes), Again(hashes))
    ensures forall id | id in Again(hashes) :: id in hashes
  {
    OnceIs(hashes);
    forall id | id in Once(hashes) ensures id in hashes {
      assert id in Elements(Once(hashes)) && Elements(Once(hashes)) == Elements(hashes);
    }
    forall id | id in Again(hashes) ensures id in hashes {
      AgainIs(hashes, id);
    }
    forall id, x | id in hashes && x in ItemsOf(Table(side, hashes), id) ensures x.asset.crossChain >= 0 {
      LoadedItem(side, hashes, id, x);
      assert Sane(x.asset, frozen);
    }
  }

  /** What is paid, as the two parts of the list owe it and are credited it. */
  lemma PaidByParts(frozen: set<Address>, side: SideChain, bank: ProgramHash, tx: Transaction,
                    hashes: seq<nat>, h: ProgramHash)
    requires Passes(frozen, side, bank, tx, hashes) && !CrossChain(h)
    ensures SumOf(tx.outputs, ValueTo(h)) == Conv(OwedOnce(side, hashes, h) + OwedAgain(side, hashes, h), side.rate)
    ensures SumOf(tx.outputs, ValueTo(h)) == CreditedOnce(side, hashes, h) + Excess(side, hashes, h)
  {
    AcceptedIsSound(frozen, side.rate, bank, tx, Flatten(Load(side, hashes).value));
    LoadedSum(side, hashes, Owed(Encodes(h)));
    LoadedSum(side, hashes, CreditedTo(Encodes(h), side.rate));
    OnceAndAgain(hashes, Each(Table(side, hashes), Owed(Encodes(h))));
    OnceAndAgain(hashes, Each(Table(side, hashes), CreditedTo(Encodes(h), side.rate)));
  }

  lemma PartsCarry(frozen: set<Address>, side: SideChain, bank: ProgramHash, tx: Transaction,
                   hashes: seq<nat>, h: ProgramHash)
    requires Passes(frozen, side, bank, tx, hashes)
    ensures OwedOnce(side, hashes, h) >= 0 && Conv(OwedOnce(side, hashes, h), side.rate) >= CreditedOnce(side, hashes, h)
    ensures OwedAgain(side, hashes, h) >= 0
    ensures Conv(OwedAgain(side, hashes, h), side.rate) >= Excess(side, hashes, h) >= 0
  {
    PartsNotNegative(frozen, side, bank, tx, hashes);
    PartCarry(Table(side, hashes), Once(hashes), Encodes(h), side.rate);
    PartCarry(Table(side, hashes), Again(hashes), Encodes(h), side.rate);
  }

  /** An ordinary address is paid what the listed withdrawals, each counted once, owe
      it, and what the repetitions are credited; never less than the former. */
  lemma PaidIsOwedAndExcess(frozen: set<Address>, side: SideChain, bank: ProgramHash, tx: Transaction,
                            hashes: seq<nat>, h: ProgramHash)
    requires Passes(frozen, side, bank, tx, hashes) && !CrossChain(h)
    ensures SumOf(tx.outputs, ValueTo(h)) == Conv(OwedOnce(side, hashes, h), side.rate) + Excess(side, hashes, h)
    ensures Excess(side, hashes, h) >= 0
  {
    PartsCarry(frozen, side, bank, tx, hashes, h);
    PaidByParts(frozen, side, bank, tx, hashes, h);
    NoCarryBetween(OwedOnce(side, hashes, h), OwedAgain(side, hashes, h), CreditedOnce(side, hashes, h),
                   Excess(side, hashes, h), side.rate);
  }

  /** When the conversion of two debts at once equals what was credited piece by piece,
      converting each of them loses nothing either. */
  lemma NoCarryBetween(owed: nat, owed': nat, credited: int, credited': int, rate: real)
    requires rate > 0.0 && Conv(owed, rate) >= credited && Conv(owed', rate) >= credited'
    requires Conv(owed + owed', rate) == credited + credited'
    ensures credited == Conv(owed, rate)
  {
    ConvAdd(owed, owed', rate);
  }

  /** Every ordinary address is paid what the set of listed withdrawals owes it. */
  ghost predicate PaysOnce(side: SideChain, tx: Transaction, hashes: seq<nat>)
    requires side.rate > 0.0
  {
    forall h | !CrossChain(h) :: SumOf(tx.outputs, ValueTo(h)) == Conv(OwedOnce(side, hashes, h), side.rate)
  }

  /** The withdrawals listed more than once have only payouts too small for a unit. */
  predicate RepeatsPayNothing(side: SideChain, hashes: seq<nat>)
    requires side.rate > 0.0
  {
    forall id, x | id in Again(hashes) && x in ItemsOf(Table(side, hashes), id) :: Conv(x.asset.crossChain, side.rate) == 0
  }

  lemma ExactHasNoExcess(frozen: set<Address>, side: SideChain, bank: ProgramHash, tx: Transaction,
                         hashes: seq<nat>, id: nat, x: Item)
    requires Passes(frozen, side, bank, tx, hashes) && PaysOnce(side, tx, hashes)
    requires id in Again(hashes) && x in ItemsOf(Table(side, hashes), id)
    ensures Conv(x.asset.crossChain, side.rate) == 0
  {
    PartsNotNegative(frozen, side, bank, tx, hashes);
    LoadedItem(side, hashes, id, x);
    AcceptedIsSound(frozen, side.rate, bank, tx, Flatten(Load(side, hashes).value));
    var h := x.asset.target.hash;
    PaidIsOwedAndExcess(frozen, side, bank, tx, hashes, h);
    NoExcessIff(side, hashes, h);
  }

  /** What passes pays the set of listed withdrawals if and only if the withdrawals
      listed more than once pay nothing; so it does if there are none. */
  lemma PaysOnceIff(frozen: set<Address>, side: SideChain, bank: ProgramHash, tx: Transaction, hashes: seq<nat>)
    requires Passes(frozen, side, bank, tx, hashes)
    ensures PaysOnce(side, tx, hashes) <==> RepeatsPayNothing(side, hashes)
    ensures Distinct(hashes) ==> PaysOnce(side, tx, hashes)
  {
    if PaysOnce(side, tx, hashes) {
      forall id, x | id in Again(hashes) && x in ItemsOf(Table(side, hashes), id)
        ensures Conv(x.asset.crossChain, side.rate) == 0 {
        ExactHasNoExcess(frozen, side, bank, tx, hashes, id, x);
      }
    }
    if RepeatsPayNothing(side, hashes) {
      PartsNotNegative(frozen, side, bank, tx, hashes);
      forall h | !CrossChain(h)
        ensures SumOf(tx.outputs, ValueTo(h)) == Conv(OwedOnce(side, hashes, h), side.rate) {
        PaidIsOwedAndExcess(frozen, side, bank, tx, hashes, h);
        NoExcessIff(side, hashes, h);
      }
    }
    NothingAgain(hashes);
  }

  lemma NoExcessIff(side: SideChain, hashes: seq<nat>, h: ProgramHash)
    requires side.rate > 0.0 && PayoutsNotNegative(Table(side, hashes), Again(hashes))
    ensures Excess(side, hashes, h) == 0 <==>
              forall id, x | id in Again(hashes) && x in ItemsOf(Table(side, hashes), id) && x.asset.target == Encodes(h) ::
                Conv(x.asset.crossChain, side.rate) == 0
  {
    var table, f := Table(side, hashes), CreditedTo(Encodes(h), side.rate);
    forall id | id in Again(hashes)
      ensures Each(table, f)(id) >= 0
      ensures Each(table, f)(id) == 0 <==>
                forall x | x in ItemsOf(table, id) && x.asset.target == Encodes(h) :: Conv(x.asset.crossChain, side.rate) == 0
    {
      CreditedNotNegative(ItemsOf(table, id), Encodes(h), side.rate);
    }
    SumVanishes(Again(hashes), Each(table, f));
  }

  /** At rate 1 the bank gets back its inputs less what the set of listed withdrawals
      took, and less what the repetitions took. */
  lemma BankAtRateOne(frozen: set<Address>, side: SideChain, bank: ProgramHash, tx: Transaction, hashes: seq<nat>)
    requires Passes(frozen, side, bank, tx, hashes) && side.rate == 1.0
    ensures var taken := Each(Table(side, hashes), Taken());
            SumOf(tx.outputs, ValueTo(bank))
              == SumOf(tx.inputs, Amount()) - SumOf(Once(hashes), taken) - SumOf(Again(hashes), taken)
  {
    AcceptedAtRateOne(frozen, bank, tx, Flatten(Load(side, hashes).value));
    LoadedSum(side, hashes, Taken());
    OnceAndAgain(hashes, Each(Table(side, hashes), Taken()));
  }

  // ---- what the two checks accept ----------------------------------------------------------------

  /** Soundness of the check, whoever built the transaction: it pays ordinary addresses
      exactly what the set of withdrawals it names owes them, if and only if those it
      names more than once pay nothing; other bank addresses never get anything. */
  lemma AcceptedPaysOnceIff(w: World, tx: Transaction)
    requires w.Valid() && Accepts(w, tx) && CrossChain(ChainOf(tx.outputs).value)
    requires forall o | o in tx.outputs :: o.value >= 0
    ensures ValidChain(w.chains[ChainOf(tx.outputs).value])
    ensures var side, hashes := w.chains[ChainOf(tx.outputs).value], Hashes(tx.outputs);
            && (PaysOnce(side, tx, hashes) <==> RepeatsPayNothing(side, hashes))
            && (Distinct(hashes) ==> PaysOnce(side, tx, hashes))
    ensures forall o | o in tx.outputs && CrossChain(o.to) && o.to != ChainOf(tx.outputs).value :: o.value == 0
  {
    var bank := ChainOf(tx.outputs).value;
    var side, hashes := w.chains[bank], Hashes(tx.outputs);
    PaysOnceIff(w.frozen, side, bank, tx, hashes);
    AcceptedIsSound(w.frozen, side.rate, bank, tx, Flatten(Load(side, hashes).value));
  }

  /** The same for the older check and the list in the payload. */
  lemma OldAcceptedPaysOnceIff(w: World, tx: Transaction, genesis: ProgramHash, hashes: seq<nat>)
    requires w.Valid() && AcceptsOld(w, tx, genesis, hashes) && CrossChain(genesis)
    requires forall o | o in tx.outputs :: o.value >= 0
    ensures genesis in w.chains && ValidChain(w.chains[genesis])
    ensures var side := w.chains[genesis];
            && (PaysOnce(side, tx, hashes) <==> RepeatsPayNothing(side, hashes))
            && (Distinct(hashes) ==> PaysOnce(side, tx, hashes))
  {
    var side := w.chains[genesis];
    PaysOnceIff(FrozenFor(side, hashes, w.frozen), side, genesis, tx, hashes);
  }

  /** The older check refuses a transaction whose amounts add up if and only if a target
      is frozen and the checking node does not have every listed row, each listed once,
      in its own table. */
  lemma FrozenPassIff(w: World, tx: Transaction, genesis: ProgramHash, hashes: seq<nat>)
    requires w.Valid() && genesis in w.chains && ValidChain(w.chains[genesis])
    requires Load(w.chains[genesis], hashes).Some?
    requires Covers({}, w.chains[genesis].rate, genesis, tx, Flatten(Load(w.chains[genesis], hashes).value))
    ensures var side := w.chains[genesis];
            AcceptsOld(w, tx, genesis, hashes) <==>
              OwnRows(side, hashes) || forall x | x in Flatten(Load(side, hashes).value) :: x.asset.target !in w.frozen
  {
    var side := w.chains[genesis];
    var items := Flatten(Load(side, hashes).value);
    OwnRowsIff(side, hashes);
    forall x | x in items ensures Sane(x.asset, w.frozen) <==> x.asset.target !in w.frozen {
      assert Sane(x.asset, {});
    }
  }

  /** What the current check wants: the withdraw outputs all name one chain that the node
      knows; what they list can be loaded; every target is free and every payout leaves a
      fee; and the amounts add up. */
  ghost predicate Qualifies(w: World, tx: Transaction, key: ProgramHash)
    requires w.Valid() && key in w.chains && ValidChain(w.chains[key])
  {
    && AllName(tx.outputs, key)
    && var side := w.chains[key];
       var loaded := Load(side, Hashes(tx.outputs));
       && loaded.Some?
       && (forall x | x in Flatten(loaded.value) :: x.asset.target !in w.frozen)
       && (forall x | x in Flatten(loaded.value) :: 0 <= x.asset.crossChain < x.asset.amount)
       && Covers({}, side.rate, key, tx, Flatten(loaded.value))
  }

  /** A transaction is accepted if and only if it is all that. So one whose amounts add
      up is refused if and only if a target is frozen, whichever table was read. */
  lemma AcceptedIff(w: World, tx: Transaction)
    requires w.Valid()
    ensures Accepts(w, tx) <==> exists key :: key in w.chains && ValidChain(w.chains[key]) && Qualifies(w, tx, key)
  {
    forall key | key in w.chains
      ensures ValidChain(w.chains[key])
      ensures ChainOf(tx.outputs) == Some(key) ==> (Accepts(w, tx) <==> Qualifies(w, tx, key))
      ensures Qualifies(w, tx, key) ==> ChainOf(tx.outputs) == Some(key) {
      ChainNamed(tx.outputs, key);
      CoversApart(w.frozen, w.chains[key], key, tx, Hashes(tx.outputs));
    }
  }

  lemma CoversApart(frozen: set<Address>, side: SideChain, bank: ProgramHash, tx: Transaction, hashes: seq<nat>)
    requires ValidChain(side)
    ensures var loaded := Load(side, hashes);
            loaded.Some? ==>
              var items := Flatten(loaded.value);
              Covers(frozen, side.rate, bank, tx, items) <==>
                && (forall x | x in items :: x.asset.target !in frozen)
                && (forall x | x in items :: 0 <= x.asset.crossChain < x.asset.amount)
                && Covers({}, side.rate, bank, tx, items)
  {
    var loaded := Load(side, hashes);
    if loaded.Some? {
      var items := Flatten(loaded.value);
      forall x | x in items
        ensures Sane(x.asset, frozen) <==> x.asset.target !in frozen && 0 <= x.asset.crossChain < x.asset.amount
        ensures Sane(x.asset, {}) <==> 0 <= x.asset.crossChain < x.asset.amount {
      }
    }
  }

  /** A payout to a frozen address whose amounts add up: at rate 1 a withdrawal of 20000
      pays 10000 and leaves 10000 as the fee. */
  lemma FrozenPayoutIsRefused(w: World, bank: ProgramHash, h: ProgramHash)
    requires w.Valid() && bank in w.chains && ValidChain(w.chains[bank]) && w.frozen == {Encodes(h)}
    requires CrossChain(bank) && !CrossChain(h)
    requires var side := w.chains[bank];
             side.rate == 1.0 && side.db == side.rpc == map[7 := [Asset(Encodes(h), 20000, 10000)]]
    ensures var tx := Transaction([Utxo(0, 20000)], [Output(h, 10000, Withdraw(bank, 7))]);
            && Load(w.chains[bank], [7]) == Some([WithdrawTx(7, [Asset(Encodes(h), 20000, 10000)])])
            && Covers({}, 1.0, bank, tx, [Item(Asset(Encodes(h), 20000, 10000), 7)]) && !Accepts(w, tx)
  {
    var side, asset := w.chains[bank], Asset(Encodes(h), 20000, 10000);
    var o, x, txs := Output(h, 10000, Withdraw(bank, 7)), Item(asset, 7), [WithdrawTx(7, [asset])];
    var tx := Transaction([Utxo(0, 20000)], [o]);
    OneRowLoads(side, 7, [asset]);
    SingleItems(txs);
    assert Flatten(txs) == [x];
    OnePaid(bank, h, tx, x);
    AcceptedIff(w, tx);
    assert [o][..0] == [] && Hashes([o]) == [7];
    assert x in Flatten(txs);
  }

  lemma OneRowLoads(side: SideChain, id: nat, assets: seq<Asset>)
    requires ValidChain(side) && side.db == side.rpc == map[id := assets]
    ensures Load(side, [id]) == Some([WithdrawTx(id, assets)])
  {
    var rows := side.order({id});
    assert id in Elements([id]);
    assert Elements([id]) * side.db.Keys == {id};
    DistinctCardinality(rows);
    assert |rows| == 1 && rows[0] in Elements(rows);
    assert rows == [id] && [id][..|[id]| - 1] == [];
    assert FromTable(side.db, []) == Some([]) && side.db[id] == assets;
    assert [] + [WithdrawTx(id, assets)] == [WithdrawTx(id, assets)];
    assert FromTable(side.db, [id]) == Some([WithdrawTx(id, assets)]);
  }

  lemma OnePaid(bank: ProgramHash, h: ProgramHash, tx: Transaction, x: Item)
    requires CrossChain(bank) && !CrossChain(h) && x == Item(Asset(Encodes(h), 20000, 10000), 7)
    requires tx == Transaction([Utxo(0, 20000)], [Output(h, 10000, Withdraw(bank, 7))])
    ensures Covers({}, 1.0, bank, tx, [x])
  {
    var o := tx.outputs[0];
    ConvAtOne(10000);
    SumOne(tx.inputs[0], Amount());
    SumOne(o, Value());
    SumOne(x, Fee(1.0));
    SumOne(o, OneNotTo(bank));
    SumOne(x, Credited(1.0));
    SumOne(o, ValueNotTo(bank));
    SumOne(x, Owed(Encodes(h)));
    SumOne(o, ValueTo(h));
    assert tx.outputs == [o] && tx.inputs == [Utxo(0, 20000)];
    assert Targets([x]) == {Encodes(h)};
    assert Payees([o]) == {h};
  }

  /** The inputs at which the set is overpaid: any withdrawal with one ordinary target,
      listed twice. The transaction the builder makes of it is accepted by every peer
      that sees the withdrawal, and pays it twice. */
  lemma ListedTwiceIsPaidTwice(w: World, src: Source, frozen: set<Address>, id: nat, h: ProgramHash,
                               amount: int, payout: int)
    requires src.rate == 1.0 && CrossChain(src.bank) && !CrossChain(h)
    requires var x := WithdrawTx(id, [Asset(Encodes(h), amount, payout)]);
             && Peer(w, src, frozen, [x, x]) && Whole(w.chains[src.bank].rpc, [x, x]) && Proposable(x, frozen)
             && Positive(src.utxos(SumOf(Flatten([x, x]), Charged(1.0)))) && Build([x, x], src).Some?
    ensures var x := WithdrawTx(id, [Asset(Encodes(h), amount, payout)]);
            var side, tx := w.chains[src.bank], Build([x, x], src).value;
            && Accepts(w, tx) && Hashes(tx.outputs) == [id, id]
            && OwedOnce(side, [id, id], h) == payout && SumOf(tx.outputs, ValueTo(h)) == 2 * payout
  {
    var x := WithdrawTx(id, [Asset(Encodes(h), amount, payout)]);
    SingleItems([x, x]);
    OrdinaryWithdrawalsAreAccepted(w, [x, x], src, frozen);
    PairIsPaid(src, frozen, x, h);
    OnceOfPair(w.chains[src.bank], x, h);
  }

  lemma PairIsPaid(src: Source, frozen: set<Address>, x: WithdrawTx, h: ProgramHash)
    requires src.rate == 1.0 && CrossChain(src.bank) && !CrossChain(h) && Proposable(x, frozen)
    requires |x.assets| == 1 && x.assets[0].target == Encodes(h)
    requires Positive(src.utxos(SumOf(Flatten([x, x]), Charged(1.0)))) && Build([x, x], src).Some?
    ensures var tx := Build([x, x], src).value;
            Hashes(tx.outputs) == [x.id, x.id] && SumOf(tx.outputs, ValueTo(h)) == 2 * x.assets[0].crossChain
  {
    var txs, item := [x, x], Item(x.assets[0], x.id);
    var items := Flatten(txs);
    SingleItems(txs);
    assert items == [item, item];
    var inputs, change := BuiltShape(txs, src, frozen);
    BuiltHashes(items, src, change);
    assert SideTxs(items) == [x.id, x.id];
    BuiltSums(items, src, change, h);
    PaidForPair(item, h);
  }

  lemma PaidForPair(item: Item, h: ProgramHash)
    requires item.asset.target == Encodes(h)
    ensures SumOf([item, item], CreditedTo(Encodes(h), 1.0)) == 2 * item.asset.crossChain
  {
    var f := CreditedTo(Encodes(h), 1.0);
    ConvAtOne(item.asset.crossChain);
    assert [item, item] == [item] + [item] && [item] == [] + [item];
    SumSnoc([item], item, f);
    SumSnoc([], item, f);
  }

  lemma OnceOfPair(side: SideChain, x: WithdrawTx, h: ProgramHash)
    requires Whole(side.rpc, [x, x]) && |x.assets| == 1 && x.assets[0].target == Encodes(h)
    ensures OwedOnce(side, [x.id, x.id], h) == x.assets[0].crossChain
  {
    OncePair(x.id);
    SumOne(x.id, Each(side.rpc, Owed(Encodes(h))));
    assert [x, x][0] == x;
    var item := Item(x.assets[0], x.id);
    assert ItemsOf(side.rpc, x.id) == [item];
    SumOne(item, Owed(Encodes(h)));
  }

  lemma OncePair(id: nat)
    ensures Once([id, id]) == [id] && !Distinct([id, id])
  {
    var pair := [id, id];
    assert pair[..|pair| - 1] == [id] && [id][..0] == [];
    assert Once([id]) == [id];
  }
}
