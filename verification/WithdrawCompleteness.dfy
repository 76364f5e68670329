/** The builder against the checker: exactly which built transactions the other
    arbiters accept. */
module WithdrawCompleteness {
  import opened CoinSelection
  import opened Lists
  import opened Options
  import opened Sums
  import opened WithdrawBuilder
  import opened WithdrawChecker
  import opened WithdrawSoundness
  import opened Withdrawals

  // ---- the order in which withdrawals are loaded does not matter ------------------------------

  lemma SameMembers(items: seq<Item>, items': seq<Item>)
    requires multiset(items) == multiset(items')
    ensures (forall x :: x in items <==> x in items') && |items| == |items'| && Targets(items) == Targets(items')
  {
    forall x ensures x in items <==> x in items' {
      assert x in items <==> x in multiset(items);
      assert x in items' <==> x in multiset(items');
    }
    assert |items| == |multiset(items)| == |multiset(items')| == |items'|;
  }

  lemma CoversPermutation(frozen: set<Address>, rate: real, bank: ProgramHash, tx: Transaction, items: seq<Item>,
                          items': seq<Item>)
    requires rate > 0.0 && multiset(items) == multiset(items')
    requires Covers(frozen, rate, bank, tx, items)
    ensures Covers(frozen, rate, bank, tx, items')
  {
    SameMembers(items, items');
    SumPermutation(items, items', Fee(rate));
    SumPermutation(items, items', Credited(rate));
    forall h | h in Payees(tx.outputs) ensures SumOf(items, Owed(Encodes(h))) == SumOf(items', Owed(Encodes(h))) {
      SumPermutation(items, items', Owed(Encodes(h)));
    }
  }

  // ---- what the built outputs look like to the checker ------------------------------------------

  function SideTxs(items: seq<Item>): (hs: seq<nat>)
    ensures |hs| == |items|
  {
    seq(|items|, i requires 0 <= i < |items| => items[i].sideTx)
  }

  lemma {:induction false} PayoutHashes(items: seq<Item>, src: Source)
    requires src.rate > 0.0 && Parse(items)
    ensures Hashes(Payouts(items, src)) == SideTxs(items)
    ensures items != [] ==> ChainOf(Payouts(items, src)) == Some(src.bank)
    ensures OneChain(Payouts(items, src), src.bank)
    decreases |items|
  {
    if items != [] {
      var init := items[..|items| - 1];
      PayoutHashes(init, src);
      assert Payouts(items, src)[..|items| - 1] == Payouts(init, src);
      assert SideTxs(items) == SideTxs(init) + [items[|items| - 1].sideTx];
      if init == [] {
        assert ChainOf(Payouts(init, src)).None?;
      }
    }
  }

  /** The change output names no withdrawal. */
  lemma BuiltHashes(items: seq<Item>, src: Source, change: int)
    requires src.rate > 0.0 && Parse(items) && items != []
    ensures var outputs := Payouts(items, src) + ChangeTo(src.bank, change);
            Hashes(outputs) == SideTxs(items) && ChainOf(outputs) == Some(src.bank) && OneChain(outputs, src.bank)
  {
    var payouts := Payouts(items, src);
    PayoutHashes(items, src);
    if change > 0 {
      assert (payouts + ChangeTo(src.bank, change))[..|payouts|] == payouts;
      assert Hashes(payouts) + [] == Hashes(payouts);
    } else {
      assert payouts + ChangeTo(src.bank, change) == payouts;
    }
  }

  function OneOf(): Item -> int {
    (x: Item) => 1
  }

  function OneNotFor(bank: ProgramHash): Item -> int {
    (x: Item) => if x.asset.target == Encodes(bank) then 0 else 1
  }

  lemma CountItems(items: seq<Item>, bank: ProgramHash)
    ensures SumOf(items, OneNotFor(bank)) <= |items|
    ensures SumOf(items, OneNotFor(bank)) == |items| <==> Encodes(bank) !in Targets(items)
  {
    SumBounds(items, OneOf(), 1, 1);
    SumPlus(items, OneNotFor(bank), OneFor(Encodes(bank)), OneOf());
    SumVanishes(items, OneFor(Encodes(bank)));
    if Encodes(bank) in Targets(items) {
      var x :| x in items && x.asset.target == Encodes(bank);
      assert OneFor(Encodes(bank))(x) == 1;
    }
  }

  /** Payouts mirror the items, change goes to the bank. */
  lemma BuiltSums(items: seq<Item>, src: Source, change: int, h: ProgramHash)
    requires src.rate > 0.0 && Parse(items) && change >= 0
    ensures var outputs := Payouts(items, src) + ChangeTo(src.bank, change);
            && SumOf(outputs, Value()) == SumOf(items, Credited(src.rate)) + change
            && SumOf(outputs, OneNotTo(src.bank)) == SumOf(items, OneNotFor(src.bank))
            && (h != src.bank ==> SumOf(outputs, ValueTo(h)) == SumOf(items, CreditedTo(Encodes(h), src.rate)))
            && (Encodes(src.bank) !in Targets(items) ==>
                  SumOf(outputs, ValueNotTo(src.bank)) == SumOf(items, Credited(src.rate)))
  {
    var payouts := Payouts(items, src);
    SumSame(payouts, items, Value(), Credited(src.rate));
    SumSame(payouts, items, OneNotTo(src.bank), OneNotFor(src.bank));
    SumSame(payouts, items, ValueTo(h), CreditedTo(Encodes(h), src.rate));
    if Encodes(src.bank) !in Targets(items) {
      forall i | 0 <= i < |items| ensures ValueNotTo(src.bank)(payouts[i]) == Credited(src.rate)(items[i]) {
        assert items[i].asset.target in Targets(items);
      }
      SumSame(payouts, items, ValueNotTo(src.bank), Credited(src.rate));
    }
    AddChange(payouts, src.bank, change, Value());
    AddChange(payouts, src.bank, change, OneNotTo(src.bank));
    AddChange(payouts, src.bank, change, ValueTo(h));
    AddChange(payouts, src.bank, change, ValueNotTo(src.bank));
  }

  lemma AddChange(payouts: seq<Output>, bank: ProgramHash, change: int, f: Output -> int)
    requires change >= 0
    ensures SumOf(payouts + ChangeTo(bank, change), f)
              == SumOf(payouts, f) + if change > 0 then f(Output(bank, change, Plain)) else 0
  {
    if change > 0 {
      SumSnoc(payouts, Output(bank, change, Plain), f);
    } else {
      assert payouts + ChangeTo(bank, change) == payouts;
    }
  }

  lemma BuiltPayees(items: seq<Item>, src: Source, change: int)
    requires src.rate > 0.0 && Parse(items) && CrossChain(src.bank)
    ensures var hs := Payees(Payouts(items, src) + ChangeTo(src.bank, change));
            && Encodings(hs) <= Targets(items)
            && (Encodings(hs) == Targets(items) <==> OrdinaryTargets(items))
            && (forall h | h in hs :: h != src.bank)
  {
    var payouts := Payouts(items, src);
    var outputs := payouts + ChangeTo(src.bank, change);
    var hs := Payees(outputs);
    forall a | a in Encodings(hs) ensures a in Targets(items) {
      var o :| o in outputs && !CrossChain(o.to) && a == Encodes(o.to);
      var i :| 0 <= i < |payouts| && o == payouts[i];
      assert items[i].asset.target == a;
    }
    forall i | 0 <= i < |items| && !CrossChain(items[i].asset.target.hash)
      ensures items[i].asset.target in Encodings(hs) {
      assert payouts[i] in outputs;
    }
    if OrdinaryTargets(items) {
      forall a | a in Targets(items) ensures a in Encodings(hs) {
        var x :| x in items && a == x.asset.target;
        var i :| 0 <= i < |items| && items[i] == x;
      }
    } else {
      var x :| x in items && CrossChain(x.asset.target.hash);
      assert x.asset.target in Targets(items) && x.asset.target !in Encodings(hs);
    }
  }

  // ---- when the amounts of a built transaction add up ----------------------------------------------

  predicate OrdinaryTargets(items: seq<Item>)
    requires Parse(items)
  {
    forall x | x in items :: !CrossChain(x.asset.target.hash)
  }

  predicate NoFeeCarry(items: seq<Item>, rate: real)
    requires rate > 0.0
  {
    forall x | x in items :: FeeCarry(rate)(x) == 0
  }

  /** Converting what an address is owed at once or payout by payout is the same. */
  predicate NoAddressCarry(items: seq<Item>, rate: real)
    requires rate > 0.0
  {
    forall a | a in Targets(items) :: Conv(SumOf(items, Owed(a)), rate) == SumOf(items, CreditedTo(a, rate))
  }

  predicate AllPayable(items: seq<Item>, frozen: set<Address>) {
    forall i | 0 <= i < |items| :: Payable(items[i].asset, frozen)
  }

  lemma BuiltCoversIff(items: seq<Item>, src: Source, frozen: set<Address>, inputs: seq<Utxo>, change: int)
    requires src.rate > 0.0 && CrossChain(src.bank) && AllPayable(items, frozen) && Parse(items) && change >= 0
    requires SumOf(inputs, Amount()) == SumOf(items, Charged(src.rate)) + change
    ensures var tx := Transaction(inputs, Payouts(items, src) + ChangeTo(src.bank, change));
            Covers(frozen, src.rate, src.bank, tx, items) <==>
              OrdinaryTargets(items) && NoFeeCarry(items, src.rate) && NoAddressCarry(items, src.rate)
  {
    var tx := Transaction(inputs, Payouts(items, src) + ChangeTo(src.bank, change));
    var hs := Payees(tx.outputs);
    FeeRounding(items, src.rate);
    BuiltSums(items, src, change, src.bank);
    CountItems(items, src.bank);
    BuiltPayees(items, src, change);
    EncodingsSize(hs);
    SubsetCardinality(Encodings(hs), Targets(items));
    forall h | h in hs ensures SumOf(tx.outputs, ValueTo(h)) == SumOf(items, CreditedTo(Encodes(h), src.rate)) {
      BuiltSums(items, src, change, h);
    }
    if OrdinaryTargets(items) {
      BankIsNoTarget(items, src.bank);
      forall h | h in hs ensures Encodes(h) in Targets(items) {
        assert Encodes(h) in Encodings(hs);
      }
    }
  }

  lemma BankIsNoTarget(items: seq<Item>, bank: ProgramHash)
    requires Parse(items) && OrdinaryTargets(items) && CrossChain(bank)
    ensures Encodes(bank) !in Targets(items)
  {
  }

  // ---- which withdrawals the checker loads -----------------------------------------------------------

  predicate OneAssetEach(txs: seq<WithdrawTx>) {
    forall i | 0 <= i < |txs| :: |txs[i].assets| == 1
  }

  /** What the checking node may learn about the withdrawals: the side chain's answer,
      if there is one, has the assets proposed and perhaps more, as the scanner drops
      single assets that it cannot pay; a row in its own table, if there is one, went
      through the same scanner. */
  predicate Knows(side: SideChain, txs: seq<WithdrawTx>) {
    forall i | 0 <= i < |txs| :: KnowsOne(side, txs[i])
  }

  predicate KnowsOne(side: SideChain, tx: WithdrawTx) {
    && (tx.id in side.rpc ==>
          && |tx.assets| <= |side.rpc[tx.id]|
          && (|tx.assets| == |side.rpc[tx.id]| ==> side.rpc[tx.id] == tx.assets))
    && (tx.id in side.db ==> side.db[tx.id] == tx.assets)
  }

  /** Every hash is listed once and has a row in the node's own table. */
  predicate OwnRows(side: SideChain, hashes: seq<nat>) {
    Distinct(hashes) && forall h | h in hashes :: h in side.db
  }

  /** The withdrawals have in this table the assets proposed. */
  predicate Whole(table: map<nat, seq<Asset>>, txs: seq<WithdrawTx>) {
    forall i | 0 <= i < |txs| :: txs[i].id in table && table[txs[i].id] == txs[i].assets
  }

  /** Wherever the checking node looks them up, it sees the assets proposed. */
  predicate SeesSame(side: SideChain, txs: seq<WithdrawTx>) {
    OwnRows(side, Ids(txs)) || Whole(side.rpc, txs)
  }

  lemma {:induction false} SingleItems(txs: seq<WithdrawTx>)
    requires OneAssetEach(txs)
    ensures |Flatten(txs)| == |txs|
    ensures forall i | 0 <= i < |txs| :: Flatten(txs)[i] == Item(txs[i].assets[0], txs[i].id)
  {
    if txs != [] {
      SingleItems(txs[..|txs| - 1]);
    }
  }

  lemma {:induction false} DistinctList(hs: seq<nat>)
    requires forall i, j | 0 <= i < j < |hs| :: hs[i] != hs[j]
    ensures Distinct(hs)
  {
    if hs != [] {
      DistinctList(hs[..|hs| - 1]);
    }
  }

  lemma {:induction false} ElementsAtMost(hs: seq<nat>)
    ensures |Elements(hs)| <= |hs|
  {
    if hs != [] {
      var init, last := hs[..|hs| - 1], hs[|hs| - 1];
      assert hs == init + [last];
      ElementsAtMost(init);
      ElementsSnoc(init, last);
    }
  }

  /** A list with a repetition has fewer elements than entries. */
  lemma RepetitionShrinks(hs: seq<nat>, i: nat, j: nat)
    requires i < j < |hs| && hs[i] == hs[j]
    ensures |Elements(hs)| < |hs|
  {
    var rest := hs[..j] + hs[j + 1..];
    assert rest[i] == hs[j];
    forall h | h in hs ensures h in rest {
      var k :| 0 <= k < |hs| && hs[k] == h;
      assert k < j ==> rest[k] == h;
      assert k > j ==> rest[k - 1] == h;
    }
    assert Elements(hs) == Elements(rest);
    ElementsAtMost(rest);
  }

  /** Rows taken once each from the database are all withdrawals or too few. */
  lemma RowsCount(side: SideChain, hashes: seq<nat>)
    requires ValidChain(side)
    ensures var rows := side.order(Elements(hashes) * side.db.Keys);
            && Distinct(rows) && Elements(rows) == Elements(hashes) * side.db.Keys
            && |rows| <= |Elements(hashes)| <= |hashes|
            && (|rows| == |hashes| ==> Elements(rows) == Elements(hashes))
  {
    var s := Elements(hashes) * side.db.Keys;
    var rows := side.order(s);
    DistinctCardinality(rows);
    SubsetCardinality(s, Elements(hashes));
    ElementsAtMost(hashes);
  }

  /** The database is used exactly if it has a row for each hash and none is repeated. */
  lemma OwnRowsIff(side: SideChain, hashes: seq<nat>)
    requires ValidChain(side)
    ensures |side.order(Elements(hashes) * side.db.Keys)| == |hashes| <==> OwnRows(side, hashes)
  {
    RowsCount(side, hashes);
    var s := Elements(hashes) * side.db.Keys;
    if |side.order(s)| == |hashes| {
      assert s == Elements(hashes);
      forall h | h in hashes ensures h in side.db {
        assert h in Elements(hashes);
      }
      forall i, j | 0 <= i < j < |hashes| ensures hashes[i] != hashes[j] {
        if hashes[i] == hashes[j] {
          RepetitionShrinks(hashes, i, j);
        }
      }
      DistinctList(hashes);
    } else if OwnRows(side, hashes) {
      assert s == Elements(hashes);
      DistinctCardinality(hashes);
      DistinctCardinality(side.order(s));
    }
  }

  /** The items of withdrawals with one asset each, read from a table by hash. */
  function TableItem(table: map<nat, seq<Asset>>): nat -> Item {
    (h: nat) => Item(if h in table && table[h] != [] then table[h][0] else Asset(Malformed(""), 0, 0), h)
  }

  function MapItems(hs: seq<nat>, f: nat -> Item): seq<Item> {
    if hs == [] then [] else MapItems(hs[..|hs| - 1], f) + [f(hs[|hs| - 1])]
  }

  lemma MapItemsSnoc(hs: seq<nat>, h: nat, f: nat -> Item)
    ensures MapItems(hs + [h], f) == MapItems(hs, f) + [f(h)]
  {
    assert (hs + [h])[..|hs|] == hs;
  }

  lemma {:induction false} MapItemsConcat(a: seq<nat>, b: seq<nat>, f: nat -> Item)
    ensures MapItems(a + b, f) == MapItems(a, f) + MapItems(b, f)
  {
    if b == [] {
      assert a + b == a;
    } else {
      var init, last := b[..|b| - 1], b[|b| - 1];
      MapItemsConcat(a, init, f);
      assert a + b == (a + init) + [last];
      MapItemsSnoc(a + init, last, f);
    }
  }

  lemma {:induction false} MapItemsPermutation(a: seq<nat>, b: seq<nat>, f: nat -> Item)
    requires multiset(a) == multiset(b)
    ensures multiset(MapItems(a, f)) == multiset(MapItems(b, f))
  {
    if a == [] {
      assert |multiset(b)| == 0;
    } else {
      var init, last := a[..|a| - 1], a[|a| - 1];
      assert a == init + [last];
      var i := PositionOf(init, last, b);
      var rest := MapItemsWithoutAt(b, i, f);
      MapItemsPermutation(init, rest, f);
    }
  }

  /** The last entry of a list stands in every permutation of it; without it, the rest
      is a permutation of the rest. */
  lemma PositionOf(init: seq<nat>, last: nat, b: seq<nat>) returns (i: nat)
    requires multiset(init + [last]) == multiset(b)
    ensures i < |b| && b[i] == last && multiset(init) == multiset(b) - multiset{last}
  {
    assert multiset(init + [last]) == multiset(init) + multiset{last};
    assert last in multiset(b);
    i :| 0 <= i < |b| && b[i] == last;
  }

  lemma MapItemsWithoutAt(b: seq<nat>, i: nat, f: nat -> Item) returns (rest: seq<nat>)
    requires i < |b|
    ensures multiset(rest) == multiset(b) - multiset{b[i]}
    ensures multiset(MapItems(b, f)) == multiset(MapItems(rest, f)) + multiset{f(b[i])}
  {
    var before, after := b[..i], b[i + 1..];
    rest := before + after;
    assert b == before + [b[i]] + after;
    MapItemsConcat(before + [b[i]], after, f);
    MapItemsConcat(before, [b[i]], f);
    MapItemsConcat(before, after, f);
    assert MapItems([b[i]], f) == [f(b[i])] by {
      assert [b[i]][..0] == [];
    }
  }

  /** One more row read is its assets more. */
  lemma OneMoreRow(table: map<nat, seq<Asset>>, init: seq<nat>, h: nat)
    requires h in table && FromTable(table, init).Some?
    ensures FromTable(table, init + [h]).Some?
    ensures Flatten(FromTable(table, init + [h]).value)
              == Flatten(FromTable(table, init).value) + Items(WithdrawTx(h, table[h]))
  {
    assert (init + [h])[..|init|] == init;
    var before := FromTable(table, init).value;
    assert (before + [WithdrawTx(h, table[h])])[..|before|] == before;
  }

  /** Reading withdrawals with one asset each from a table. */
  lemma {:induction false} ReadSingles(table: map<nat, seq<Asset>>, hs: seq<nat>)
    requires forall i | 0 <= i < |hs| :: hs[i] in table && |table[hs[i]]| == 1
    ensures FromTable(table, hs).Some? && Flatten(FromTable(table, hs).value) == MapItems(hs, TableItem(table))
    decreases |hs|
  {
    if hs != [] {
      var init, h := hs[..|hs| - 1], hs[|hs| - 1];
      assert hs == init + [h];
      ReadSingles(table, init);
      OneMoreRow(table, init, h);
      assert Items(WithdrawTx(h, table[h])) == [TableItem(table)(h)];
    }
  }

  lemma {:induction false} SameMappedItems(hs: seq<nat>, f: nat -> Item, g: nat -> Item)
    requires forall i | 0 <= i < |hs| :: f(hs[i]) == g(hs[i])
    ensures MapItems(hs, f) == MapItems(hs, g)
  {
    if hs != [] {
      SameMappedItems(hs[..|hs| - 1], f, g);
    }
  }

  lemma {:induction false} OwnItems(txs: seq<WithdrawTx>, table: map<nat, seq<Asset>>)
    requires OneAssetEach(txs) && Whole(table, txs)
    ensures Flatten(txs) == MapItems(Ids(txs), TableItem(table))
  {
    if txs != [] {
      var init, tx := txs[..|txs| - 1], txs[|txs| - 1];
      OwnItems(init, table);
      assert Ids(txs)[..|txs| - 1] == Ids(init);
      assert Items(tx) == [TableItem(table)(tx.id)];
    }
  }

  /** Withdrawals with one asset each, seen as proposed, are loaded as they were
      proposed, in whatever order. */
  lemma SinglesAreLoaded(side: SideChain, txs: seq<WithdrawTx>)
    requires ValidChain(side) && OneAssetEach(txs) && Knows(side, txs) && SeesSame(side, txs)
    ensures Load(side, Ids(txs)).Some?
    ensures multiset(Flatten(Load(side, Ids(txs)).value)) == multiset(Flatten(txs))
  {
    var hashes := Ids(txs);
    OwnRowsIff(side, hashes);
    if OwnRows(side, hashes) {
      RowsAreLoaded(side, txs);
    } else {
      OwnItems(txs, side.rpc);
      ReadSingles(side.rpc, hashes);
    }
  }

  lemma RowsAreLoaded(side: SideChain, txs: seq<WithdrawTx>)
    requires ValidChain(side) && OneAssetEach(txs) && Knows(side, txs) && OwnRows(side, Ids(txs))
    ensures var loaded := FromTable(side.db, side.order(Elements(Ids(txs)) * side.db.Keys));
            loaded.Some? && multiset(Flatten(loaded.value)) == multiset(Flatten(txs))
  {
    var hashes := Ids(txs);
    var rows := side.order(Elements(hashes) * side.db.Keys);
    RowsCount(side, hashes);
    OwnRowsIff(side, hashes);
    assert Whole(side.db, txs) by {
      forall i | 0 <= i < |txs| ensures txs[i].id in side.db {
        assert hashes[i] in hashes;
      }
    }
    OwnItems(txs, side.db);
    DistinctMultiset(hashes);
    DistinctMultiset(rows);
    forall i | 0 <= i < |rows| ensures rows[i] in side.db && |side.db[rows[i]]| == 1 {
      assert rows[i] in Elements(rows);
      var j :| 0 <= j < |hashes| && hashes[j] == rows[i];
      assert txs[j].id == rows[i];
    }
    ReadSingles(side.db, rows);
    MapItemsPermutation(rows, hashes, TableItem(side.db));
  }

  // ---- a withdrawal with several assets is never accepted -----------------------------------------------

  lemma {:induction false} FlattenAt(txs: seq<WithdrawTx>, j: nat) returns (p: nat)
    requires j < |txs|
    ensures p + |txs[j].assets| <= |Flatten(txs)|
    ensures forall i | p <= i < p + |txs[j].assets| :: Flatten(txs)[i] == Item(txs[j].assets[i - p], txs[j].id)
    decreases |txs|
  {
    if j == |txs| - 1 {
      p := |Flatten(txs[..|txs| - 1])|;
    } else {
      p := FlattenAt(txs[..|txs| - 1], j);
    }
  }

  lemma {:induction false} FlattenIds(txs: seq<WithdrawTx>, i: nat) returns (j: nat, x: nat)
    requires i < |Flatten(txs)|
    ensures j < |txs| && x < |txs[j].assets| && Flatten(txs)[i] == Item(txs[j].assets[x], txs[j].id)
    decreases |txs|
  {
    var init := Flatten(txs[..|txs| - 1]);
    if i < |init| {
      j, x := FlattenIds(txs[..|txs| - 1], i);
    } else {
      j, x := |txs| - 1, i - |init|;
    }
  }

  /** Loaded hash by hash, a withdrawal listed twice counts twice. */
  lemma {:induction false} LoadedItems(table: map<nat, seq<Asset>>, hs: seq<nat>, k: nat)
    requires forall i | 0 <= i < |hs| && hs[i] in table :: table[hs[i]] != []
    requires k < |hs| && hs[k] in table ==> |table[hs[k]]| >= 2
    ensures FromTable(table, hs).Some? ==>
              var n := |Flatten(FromTable(table, hs).value)|; if k < |hs| then n > |hs| else n >= |hs|
    decreases |hs|
  {
    if hs != [] {
      var init, h := hs[..|hs| - 1], hs[|hs| - 1];
      assert hs == init + [h];
      LoadedItems(table, init, k);
      if FromTable(table, init).Some? && h in table {
        OneMoreRow(table, init, h);
      }
    }
  }

  /** A withdrawal with several assets is listed several times, so it is looked up over
      RPC, once for each time, and counts too often if it is found. */
  lemma SeveralAssetsOvercount(side: SideChain, txs: seq<WithdrawTx>, j: nat)
    requires ValidChain(side) && Knows(side, txs) && j < |txs| && |txs[j].assets| >= 2
    requires forall i | 0 <= i < |txs| :: txs[i].assets != []
    ensures var loaded := Load(side, SideTxs(Flatten(txs)));
            loaded.Some? ==> |Flatten(loaded.value)| > |Flatten(txs)|
  {
    var items := Flatten(txs);
    var hashes := SideTxs(items);
    var p := FlattenAt(txs, j);
    assert items[p].sideTx == items[p + 1].sideTx == txs[j].id;
    RepetitionShrinks(hashes, p, p + 1);
    RowsCount(side, hashes);
    forall i | 0 <= i < |hashes| && hashes[i] in side.rpc ensures side.rpc[hashes[i]] != [] {
      var j', x := FlattenIds(txs, i);
      assert KnowsOne(side, txs[j']);
    }
    assert KnowsOne(side, txs[j]);
    LoadedItems(side.rpc, hashes, p);
  }

  /** So does a withdrawal of which the proposer dropped an asset, if it is looked up
      over RPC. */
  lemma DroppedAssetsOvercount(side: SideChain, txs: seq<WithdrawTx>)
    requires ValidChain(side) && Knows(side, txs) && OneAssetEach(txs) && !SeesSame(side, txs)
    ensures var loaded := Load(side, Ids(txs));
            loaded.Some? ==> |Flatten(loaded.value)| > |txs|
  {
    var hashes := Ids(txs);
    OwnRowsIff(side, hashes);
    forall i | 0 <= i < |hashes| && hashes[i] in side.rpc ensures side.rpc[hashes[i]] != [] {
      assert KnowsOne(side, txs[i]);
    }
    var j :| 0 <= j < |txs| && !(txs[j].id in side.rpc && side.rpc[txs[j].id] == txs[j].assets);
    assert KnowsOne(side, txs[j]);
    LoadedItems(side.rpc, hashes, j);
  }

  // ---- the main theorem --------------------------------------------------------------------------------------

  predicate AllProposable(txs: seq<WithdrawTx>, frozen: set<Address>) {
    forall i | 0 <= i < |txs| :: Proposable(txs[i], frozen)
  }

  lemma {:induction false} FlattenPayable(txs: seq<WithdrawTx>, frozen: set<Address>)
    requires AllProposable(txs, frozen)
    ensures AllPayable(Flatten(txs), frozen) && Parse(Flatten(txs)) && |Flatten(txs)| >= |txs|
  {
    if txs != [] {
      FlattenPayable(txs[..|txs| - 1], frozen);
    }
  }

  /** The checking node: it knows the chain at the builder's rate, has frozen the same
      addresses and knows the withdrawals. */
  ghost predicate Peer(w: World, src: Source, frozen: set<Address>, txs: seq<WithdrawTx>) {
    && w.Valid() && src.bank in w.chains && w.frozen == frozen
    && w.chains[src.bank].rate == src.rate && Knows(w.chains[src.bank], txs)
  }

  /** The built transaction in the checker's terms. */
  lemma BuiltShape(txs: seq<WithdrawTx>, src: Source, frozen: set<Address>) returns (inputs: seq<Utxo>, change: int)
    requires src.rate > 0.0 && AllProposable(txs, frozen) && txs != []
    requires Positive(src.utxos(SumOf(Flatten(txs), Charged(src.rate)))) && Build(txs, src).Some?
    ensures AllPayable(Flatten(txs), frozen) && Parse(Flatten(txs)) && Flatten(txs) != []
    ensures Build(txs, src).value == Transaction(inputs, Payouts(Flatten(txs), src) + ChangeTo(src.bank, change))
    ensures change >= 0 && SumOf(inputs, Amount()) == SumOf(Flatten(txs), Charged(src.rate)) + change
  {
    var items := Flatten(txs);
    FlattenPayable(txs, frozen);
    forall x | x in items ensures Charged(src.rate)(x) >= 0 {
      ConvAdd(x.asset.amount, 0, src.rate);
    }
    SumVanishes(items, Charged(src.rate));
    var total := SumOf(items, Charged(src.rate));
    SelectionBalances(src.utxos(total), total);
    var selection := Select(src.utxos(total), total);
    inputs, change := selection.inputs, selection.change;
  }

  /** Main theorem. A transaction built from proposable withdrawals is accepted by a
      peer if and only if the peer sees the assets proposed, every withdrawal has one
      asset, no target is a bank address, and converting to main-chain units carries
      nowhere: neither between an asset's payout and fee nor between the payouts to one
      address. Whether withdrawals are repeated makes no difference, except that they
      are then looked up over RPC. */
  lemma BuiltIsAcceptedIff(w: World, txs: seq<WithdrawTx>, src: Source, frozen: set<Address>)
    requires src.rate > 0.0 && CrossChain(src.bank) && Peer(w, src, frozen, txs)
    requires AllProposable(txs, frozen) && txs != []
    requires Positive(src.utxos(SumOf(Flatten(txs), Charged(src.rate)))) && Build(txs, src).Some?
    ensures Parse(Flatten(txs))
    ensures Accepts(w, Build(txs, src).value) <==>
              && SeesSame(w.chains[src.bank], txs)
              && OneAssetEach(txs) && OrdinaryTargets(Flatten(txs))
              && NoFeeCarry(Flatten(txs), src.rate) && NoAddressCarry(Flatten(txs), src.rate)
  {
    var items := Flatten(txs);
    var inputs, change := BuiltShape(txs, src, frozen);
    var tx := Build(txs, src).value;
    var side := w.chains[src.bank];
    assert ValidChain(side);
    BuiltHashes(items, src, change);
    if !OneAssetEach(txs) {
      var j :| 0 <= j < |txs| && |txs[j].assets| != 1;
      assert Proposable(txs[j], frozen);
      SeveralAssetsOvercount(side, txs, j);
      OvercountIsRefused(w, src, items, tx, inputs, change);
    } else if !SeesSame(side, txs) {
      SingleItems(txs);
      assert SideTxs(items) == Ids(txs);
      DroppedAssetsOvercount(side, txs);
      OvercountIsRefused(w, src, items, tx, inputs, change);
    } else {
      SinglesAreAcceptedIff(w, txs, src, frozen, tx, inputs, change);
    }
  }

  /** There are no more payouts than items proposed, and what is not found is refused. */
  lemma OvercountIsRefused(w: World, src: Source, items: seq<Item>, tx: Transaction, inputs: seq<Utxo>, change: int)
    requires src.rate > 0.0 && w.Valid() && src.bank in w.chains && Parse(items) && change >= 0
    requires tx == Transaction(inputs, Payouts(items, src) + ChangeTo(src.bank, change))
    requires Hashes(tx.outputs) == SideTxs(items) && ChainOf(tx.outputs) == Some(src.bank)
    requires var loaded := Load(w.chains[src.bank], SideTxs(items));
             loaded.Some? ==> |Flatten(loaded.value)| > |items|
    ensures !Accepts(w, tx)
  {
    BuiltSums(items, src, change, src.bank);
    CountItems(items, src.bank);
  }

  lemma SinglesAreAcceptedIff(w: World, txs: seq<WithdrawTx>, src: Source, frozen: set<Address>,
                              tx: Transaction, inputs: seq<Utxo>, change: int)
    requires src.rate > 0.0 && CrossChain(src.bank) && Peer(w, src, frozen, txs)
    requires OneAssetEach(txs) && SeesSame(w.chains[src.bank], txs) && change >= 0
    requires AllPayable(Flatten(txs), frozen) && Parse(Flatten(txs))
    requires tx == Transaction(inputs, Payouts(Flatten(txs), src) + ChangeTo(src.bank, change))
    requires Hashes(tx.outputs) == SideTxs(Flatten(txs)) && ChainOf(tx.outputs) == Some(src.bank)
               && OneChain(tx.outputs, src.bank)
    requires SumOf(inputs, Amount()) == SumOf(Flatten(txs), Charged(src.rate)) + change
    ensures Accepts(w, tx) <==>
              OrdinaryTargets(Flatten(txs)) && NoFeeCarry(Flatten(txs), src.rate) && NoAddressCarry(Flatten(txs), src.rate)
  {
    var items, side := Flatten(txs), w.chains[src.bank];
    assert ValidChain(side);
    SingleItems(txs);
    assert SideTxs(items) == Ids(txs);
    SinglesAreLoaded(side, txs);
    var loaded := Flatten(Load(side, Ids(txs)).value);
    if Covers(frozen, src.rate, src.bank, tx, loaded) {
      CoversPermutation(frozen, src.rate, src.bank, tx, loaded, items);
    }
    if Covers(frozen, src.rate, src.bank, tx, items) {
      CoversPermutation(frozen, src.rate, src.bank, tx, items, loaded);
    }
    BuiltCoversIff(items, src, frozen, inputs, change);
  }

  /** At rate 1 nothing carries. */
  lemma NothingCarriesAtOne(items: seq<Item>)
    ensures NoFeeCarry(items, 1.0) && NoAddressCarry(items, 1.0)
  {
    forall x | x in items ensures FeeCarry(1.0)(x) == 0 {
      ConvAtOne(x.asset.amount);
      ConvAtOne(x.asset.crossChain);
      ConvAtOne(x.asset.amount - x.asset.crossChain);
    }
    forall a | a in Targets(items) ensures Conv(SumOf(items, Owed(a)), 1.0) == SumOf(items, CreditedTo(a, 1.0)) {
      ConvAtOne(SumOf(items, Owed(a)));
      forall i | 0 <= i < |items| ensures CreditedTo(a, 1.0)(items[i]) == Owed(a)(items[i]) {
        ConvAtOne(items[i].asset.crossChain);
      }
      SumSame(items, items, CreditedTo(a, 1.0), Owed(a));
    }
  }

  /** Completeness: at rate 1, proposable withdrawals with one asset each for ordinary
      addresses are built whenever the bank's outputs cover what they take, and what is
      built is accepted exactly by the peers that see the assets proposed. */
  lemma OrdinaryWithdrawalsAreAccepted(w: World, txs: seq<WithdrawTx>, src: Source, frozen: set<Address>)
    requires src.rate == 1.0 && CrossChain(src.bank) && Peer(w, src, frozen, txs)
    requires AllProposable(txs, frozen) && txs != [] && OneAssetEach(txs)
    requires Parse(Flatten(txs)) && OrdinaryTargets(Flatten(txs))
    requires Positive(src.utxos(SumOf(Flatten(txs), Charged(1.0))))
    ensures var total := SumOf(Flatten(txs), Charged(1.0));
            Build(txs, src).Some? <==> SumOf(src.utxos(total), Amount()) >= total
    ensures Build(txs, src).Some? ==> (Accepts(w, Build(txs, src).value) <==> SeesSame(w.chains[src.bank], txs))
  {
    FlattenPayable(txs, frozen);
    CoveredIsBuilt(txs, src, frozen);
    NothingCarriesAtOne(Flatten(txs));
    if Build(txs, src).Some? {
      BuiltIsAcceptedIff(w, txs, src, frozen);
    }
  }

  lemma CoveredIsBuilt(txs: seq<WithdrawTx>, src: Source, frozen: set<Address>)
    requires src.rate == 1.0 && AllPayable(Flatten(txs), frozen) && Parse(Flatten(txs))
    requires Positive(src.utxos(SumOf(Flatten(txs), Charged(1.0))))
    ensures var total := SumOf(Flatten(txs), Charged(1.0));
            Build(txs, src).Some? <==> SumOf(src.utxos(total), Amount()) >= total
  {
    var items := Flatten(txs);
    var total := SumOf(items, Charged(1.0));
    forall x | x in items ensures Charged(1.0)(x) >= 0 {
      ConvAdd(x.asset.amount, 0, 1.0);
    }
    SumVanishes(items, Charged(1.0));
    SelectionBalances(src.utxos(total), total);
  }

  /** What the filter keeps is proposable. */
  lemma {:induction false} FilteredRows(rows: seq<WithdrawTx>, frozen: set<Address>)
    ensures AllProposable(Filter(rows, frozen), frozen)
  {
    if rows != [] {
      FilteredRows(rows[..|rows| - 1], frozen);
    }
  }

  /** Whatever batch of the filtered rows a proposal is built from, at rate 1 exactly
      the peers that see the assets proposed accept it, provided the proposable rows
      have one ordinary target each. */
  lemma ProposedBatchIsAccepted(w: World, rows: seq<WithdrawTx>, src: Source, frozen: set<Address>, k: nat)
    requires src.rate == 1.0 && CrossChain(src.bank)
    requires 0 < k <= |Filter(rows, frozen)| && Peer(w, src, frozen, Filter(rows, frozen)[..k])
    requires forall tx | tx in rows && Proposable(tx, frozen) ::
               |tx.assets| == 1 && tx.assets[0].target.Encodes? && !CrossChain(tx.assets[0].target.hash)
    requires Positive(src.utxos(SumOf(Flatten(Filter(rows, frozen)[..k]), Charged(1.0))))
    ensures var batch := Filter(rows, frozen)[..k];
            Build(batch, src).Some? ==> (Accepts(w, Build(batch, src).value) <==> SeesSame(w.chains[src.bank], batch))
  {
    var batch := Filter(rows, frozen)[..k];
    FilteredRows(rows, frozen);
    forall i | 0 <= i < |batch| ensures Proposable(batch[i], frozen) && batch[i] in rows {
      FilterKeeps(rows, frozen, batch[i]);
      assert Filter(rows, frozen)[i] in Filter(rows, frozen);
    }
    FlattenPayable(batch, frozen);
    SingleItems(batch);
    OrdinaryWithdrawalsAreAccepted(w, batch, src, frozen);
  }

  /** At other rates a proposable withdrawal can fail: at rate 2 a payout of 1 with a
      fee of 10001 loses two halves that together are a unit. */
  lemma HalvesAreRefused(w: World, src: Source, h: ProgramHash, id: nat)
    requires src.rate == 2.0 && CrossChain(src.bank) && !CrossChain(h)
    requires Peer(w, src, {}, [WithdrawTx(id, [Asset(Encodes(h), 10002, 1)])])
    requires src.utxos(5001) == [Utxo(0, 5001)]
    ensures var txs := [WithdrawTx(id, [Asset(Encodes(h), 10002, 1)])];
            AllProposable(txs, {}) && Build(txs, src).Some? && !Accepts(w, Build(txs, src).value)
  {
    var asset := Asset(Encodes(h), 10002, 1);
    var txs := [WithdrawTx(id, [asset])];
    SingleItems(txs);
    var items := Flatten(txs);
    assert items == [Item(asset, id)] && items[..0] == [];
    assert Conv(10002, 2.0) == 5001 && Conv(1, 2.0) == 0 && Conv(10001, 2.0) == 5000;
    assert SumOf(items, Charged(2.0)) == 5001;
    assert FeeCarry(2.0)(items[0]) == 1;
    assert Payable(asset, {});
    BuiltIsAcceptedIff(w, txs, src, {});
  }
}
