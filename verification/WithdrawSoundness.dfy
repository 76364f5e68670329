/** What the amounts that the withdraw checker compares mean, whoever built the
    transaction: ordinary addresses get what the loaded withdrawals owe them, other bank
    addresses get nothing, and the rest returns to the bank. A withdrawal is loaded as
    often as the transaction lists it; what that is worth is WithdrawExactness. */
module WithdrawSoundness {
  import opened CoinSelection
  import opened Lists
  import opened Sums
  import opened WithdrawChecker
  import opened Withdrawals

  // ---- rounding ---------------------------------------------------------------------------

  function OneFor(a: Address): Item -> int {
    (x: Item) => if x.asset.target == a then 1 else 0
  }

  predicate NotNegative(items: seq<Item>) {
    forall i | 0 <= i < |items| :: items[i].asset.crossChain >= 0
  }

  /** For m payouts to one address, the converted total exceeds the total of the
      converted payouts by at most m-1. */
  lemma {:induction false} AddressCarry(items: seq<Item>, a: Address, rate: real)
    requires rate > 0.0 && NotNegative(items)
    ensures var m, owed := SumOf(items, OneFor(a)), SumOf(items, Owed(a));
            var carry := Conv(owed, rate) - SumOf(items, CreditedTo(a, rate));
            m >= 0 && owed >= 0 && 0 <= carry <= (if m == 0 then 0 else m - 1) && (m == 0 ==> owed == 0)
  {
    if items == [] {
      ConvAdd(0, 0, rate);
    } else {
      var init, x := items[..|items| - 1], items[|items| - 1];
      AddressCarry(init, a, rate);
      if x.asset.target == a {
        ConvAdd(SumOf(init, Owed(a)), x.asset.crossChain, rate);
      }
    }
  }

  function FeeCarry(rate: real): Item -> int
    requires rate > 0.0
  {
    (x: Item) =>
      Conv(x.asset.amount, rate) - Conv(x.asset.crossChain, rate) - Conv(x.asset.amount - x.asset.crossChain, rate)
  }

  function CreditedAndFee(rate: real): Item -> int
    requires rate > 0.0
  {
    (x: Item) => Conv(x.asset.crossChain, rate) + Conv(x.asset.amount - x.asset.crossChain, rate)
  }

  predicate FeesPositive(items: seq<Item>) {
    forall x | x in items :: 0 <= x.asset.crossChain <= x.asset.amount
  }

  /** The fee a transaction implies by what it takes and what it pays exceeds the fee
      the checker computes by one unit for every asset whose fractions add up to a
      unit, so by at most the number of assets. */
  lemma FeeRounding(items: seq<Item>, rate: real)
    requires rate > 0.0 && FeesPositive(items)
    ensures var carry := SumOf(items, Charged(rate)) - SumOf(items, Credited(rate)) - SumOf(items, Fee(rate));
            && carry == SumOf(items, FeeCarry(rate)) && 0 <= carry <= |items|
            && (carry == 0 <==> forall x | x in items :: FeeCarry(rate)(x) == 0)
  {
    forall x | x in items ensures 0 <= FeeCarry(rate)(x) <= 1 {
      ConvAdd(x.asset.crossChain, x.asset.amount - x.asset.crossChain, rate);
    }
    SumPlus(items, Credited(rate), Fee(rate), CreditedAndFee(rate));
    SumPlus(items, CreditedAndFee(rate), FeeCarry(rate), Charged(rate));
    SumBounds(items, FeeCarry(rate), 0, 1);
    SumVanishes(items, FeeCarry(rate));
  }

  // ---- sums by address --------------------------------------------------------------------

  ghost function SumOver(hs: set<ProgramHash>, f: ProgramHash -> int): int {
    if hs == {} then 0
    else
      var h :| h in hs;
      f(h) + SumOver(hs - {h}, f)
  }

  lemma {:induction false} SumOverAtLeast(hs: set<ProgramHash>, f: ProgramHash -> int, g: ProgramHash -> int)
    requires forall h | h in hs :: f(h) >= g(h)
    ensures SumOver(hs, f) - SumOver(hs, g) >= 0
    ensures SumOver(hs, f) == SumOver(hs, g) ==> forall h | h in hs :: f(h) == g(h)
  {
    if hs != {} {
      var h :| h in hs && SumOver(hs, f) == f(h) + SumOver(hs - {h}, f);
      SumOverPick(hs, g, h);
      SumOverAtLeast(hs - {h}, f, g);
    }
  }

  lemma {:induction false} SumOverPick(hs: set<ProgramHash>, f: ProgramHash -> int, h: ProgramHash)
    requires h in hs
    ensures SumOver(hs, f) == f(h) + SumOver(hs - {h}, f)
    decreases |hs|
  {
    var c :| c in hs && SumOver(hs, f) == f(c) + SumOver(hs - {c}, f);
    if c != h {
      SumOverPick(hs - {c}, f, h);
      SumOverPick(hs - {h}, f, c);
      assert hs - {c} - {h} == hs - {h} - {c};
    }
  }

  function PaidTo(outputs: seq<Output>): ProgramHash -> int {
    (h: ProgramHash) => SumOf(outputs, ValueTo(h))
  }

  function PaidWithin(hs: set<ProgramHash>): Output -> int {
    (o: Output) => if o.to in hs then o.value else 0
  }

  lemma {:induction false} PaidByAddress(outputs: seq<Output>, hs: set<ProgramHash>)
    ensures SumOver(hs, PaidTo(outputs)) == SumOf(outputs, PaidWithin(hs))
    decreases |hs|
  {
    if hs == {} {
      SumBounds(outputs, PaidWithin(hs), 0, 0);
    } else {
      var h :| h in hs && SumOver(hs, PaidTo(outputs)) == PaidTo(outputs)(h) + SumOver(hs - {h}, PaidTo(outputs));
      PaidByAddress(outputs, hs - {h});
      SumPlus(outputs, ValueTo(h), PaidWithin(hs - {h}), PaidWithin(hs));
    }
  }

  function CreditedFor(items: seq<Item>, rate: real): ProgramHash -> int
    requires rate > 0.0
  {
    (h: ProgramHash) => SumOf(items, CreditedTo(Encodes(h), rate))
  }

  function CreditedWithin(hs: set<ProgramHash>, rate: real): Item -> int
    requires rate > 0.0
  {
    (x: Item) =>
      if x.asset.target.Encodes? && x.asset.target.hash in hs then Conv(x.asset.crossChain, rate) else 0
  }

  lemma {:induction false} CreditedByAddress(items: seq<Item>, hs: set<ProgramHash>, rate: real)
    requires rate > 0.0
    ensures SumOver(hs, CreditedFor(items, rate)) == SumOf(items, CreditedWithin(hs, rate))
    decreases |hs|
  {
    if hs == {} {
      SumBounds(items, CreditedWithin(hs, rate), 0, 0);
    } else {
      var f := CreditedFor(items, rate);
      var h :| h in hs && SumOver(hs, f) == f(h) + SumOver(hs - {h}, f);
      CreditedByAddress(items, hs - {h}, rate);
      SumPlus(items, CreditedTo(Encodes(h), rate), CreditedWithin(hs - {h}, rate), CreditedWithin(hs, rate));
    }
  }

  // ---- soundness ----------------------------------------------------------------------------

  function Encodings(hs: set<ProgramHash>): set<Address> {
    set h | h in hs :: Encodes(h)
  }

  lemma {:induction false} EncodingsSize(hs: set<ProgramHash>)
    ensures |Encodings(hs)| == |hs|
    decreases |hs|
  {
    if hs != {} {
      var h :| h in hs;
      EncodingsSize(hs - {h});
      assert Encodings(hs) == Encodings(hs - {h}) + {Encodes(h)};
    }
  }

  /** Value that goes to a bank address of another side chain. */
  function Stray(bank: ProgramHash): Output -> int {
    (o: Output) => if CrossChain(o.to) && o.to != bank then o.value else 0
  }

  /** Equally many ordinary receivers and targets: they are the same. */
  lemma TargetsArePayees(frozen: set<Address>, rate: real, bank: ProgramHash, tx: Transaction, items: seq<Item>)
    requires rate > 0.0 && Covers(frozen, rate, bank, tx, items)
    ensures Targets(items) == Encodings(Payees(tx.outputs))
  {
    EncodingsSize(Payees(tx.outputs));
    assert Encodings(Payees(tx.outputs)) <= Targets(items);
    SubsetCardinality(Encodings(Payees(tx.outputs)), Targets(items));
  }

  /** What leaves the bank goes to ordinary receivers or strays. */
  lemma PayoutsSplit(outputs: seq<Output>, bank: ProgramHash)
    requires CrossChain(bank)
    ensures SumOf(outputs, ValueNotTo(bank)) == SumOver(Payees(outputs), PaidTo(outputs)) + SumOf(outputs, Stray(bank))
    ensures SumOf(outputs, Value()) == SumOf(outputs, ValueNotTo(bank)) + SumOf(outputs, ValueTo(bank))
  {
    PaidByAddress(outputs, Payees(outputs));
    SumPlus(outputs, PaidWithin(Payees(outputs)), Stray(bank), ValueNotTo(bank));
    SumPlus(outputs, ValueNotTo(bank), ValueTo(bank), Value());
  }

  lemma NothingStrays(frozen: set<Address>, rate: real, bank: ProgramHash, tx: Transaction, items: seq<Item>)
    requires rate > 0.0 && Covers(frozen, rate, bank, tx, items) && CrossChain(bank)
    ensures SumOf(tx.outputs, Stray(bank)) <= 0
    ensures SumOf(tx.outputs, Stray(bank)) == 0 ==>
              forall h | h in Payees(tx.outputs) :: PaidTo(tx.outputs)(h) == CreditedFor(items, rate)(h)
  {
    var hs := Payees(tx.outputs);
    PayoutsSplit(tx.outputs, bank);
    TargetsArePayees(frozen, rate, bank, tx, items);
    CreditedByAddress(items, hs, rate);
    AllCreditedWithin(items, hs, rate);
    forall h | h in hs ensures PaidTo(tx.outputs)(h) >= CreditedFor(items, rate)(h) {
      AddressCarry(items, Encodes(h), rate);
    }
    SumOverAtLeast(hs, PaidTo(tx.outputs), CreditedFor(items, rate));
  }

  lemma AllCreditedWithin(items: seq<Item>, hs: set<ProgramHash>, rate: real)
    requires rate > 0.0 && Targets(items) == Encodings(hs)
    ensures SumOf(items, CreditedWithin(hs, rate)) == SumOf(items, Credited(rate))
  {
    forall i | 0 <= i < |items| ensures CreditedWithin(hs, rate)(items[i]) == Credited(rate)(items[i]) {
      assert items[i].asset.target in Targets(items);
    }
    SumSame(items, items, CreditedWithin(hs, rate), Credited(rate));
  }

  /** At any rate: if the amounts of a transaction whose outputs are not negative add
      up for a list of payouts, then every ordinary address is paid exactly the
      conversion of what the list owes it, repetitions included, without any rounding
      loss against paying them one by one; every target is an ordinary address; no
      other bank address gets anything; and the bank gets back its inputs less fees and
      payouts. */
  lemma AcceptedIsSound(frozen: set<Address>, rate: real, bank: ProgramHash, tx: Transaction, items: seq<Item>)
    requires rate > 0.0 && Covers(frozen, rate, bank, tx, items) && CrossChain(bank)
    requires forall o | o in tx.outputs :: o.value >= 0
    ensures forall h | !CrossChain(h) ::
              && SumOf(tx.outputs, ValueTo(h)) == Conv(SumOf(items, Owed(Encodes(h))), rate)
              && SumOf(tx.outputs, ValueTo(h)) == SumOf(items, CreditedTo(Encodes(h), rate))
    ensures forall x | x in items :: x.asset.target.Encodes? && !CrossChain(x.asset.target.hash)
    ensures forall o | o in tx.outputs && CrossChain(o.to) && o.to != bank :: o.value == 0
    ensures SumOf(tx.outputs, ValueTo(bank))
              == SumOf(tx.inputs, Amount()) - SumOf(items, Fee(rate)) - SumOf(items, Credited(rate))
  {
    SumVanishes(tx.outputs, Stray(bank));
    NothingStrays(frozen, rate, bank, tx, items);
    assert forall o | o in tx.outputs :: Stray(bank)(o) == 0;
    PayoutsSplit(tx.outputs, bank);
    TargetsArePayees(frozen, rate, bank, tx, items);
    forall x | x in items ensures x.asset.target.Encodes? && !CrossChain(x.asset.target.hash) {
      assert x.asset.target in Targets(items);
    }
    forall h | !CrossChain(h)
      ensures SumOf(tx.outputs, ValueTo(h)) == Conv(SumOf(items, Owed(Encodes(h))), rate)
      ensures SumOf(tx.outputs, ValueTo(h)) == SumOf(items, CreditedTo(Encodes(h), rate))
    {
      PaidExactly(tx.outputs, items, rate, h);
    }
  }

  lemma PaidExactly(outputs: seq<Output>, items: seq<Item>, rate: real, h: ProgramHash)
    requires rate > 0.0 && Targets(items) == Encodings(Payees(outputs)) && !CrossChain(h)
    requires h in Payees(outputs) ==>
               && Conv(SumOf(items, Owed(Encodes(h))), rate) == SumOf(outputs, ValueTo(h))
               && PaidTo(outputs)(h) == CreditedFor(items, rate)(h)
    ensures SumOf(outputs, ValueTo(h)) == Conv(SumOf(items, Owed(Encodes(h))), rate)
    ensures SumOf(outputs, ValueTo(h)) == SumOf(items, CreditedTo(Encodes(h), rate))
  {
    if h !in Payees(outputs) {
      SumBounds(outputs, ValueTo(h), 0, 0);
      assert Encodes(h) !in Targets(items);
      SumBounds(items, Owed(Encodes(h)), 0, 0);
      SumBounds(items, CreditedTo(Encodes(h), rate), 0, 0);
      ConvAdd(0, 0, rate);
    }
  }

  function Taken(): Item -> int {
    (x: Item) => x.asset.amount
  }

  /** At rate 1: every ordinary address is paid exactly what the list owes it, and the
      bank gets back exactly its inputs less what the list took. */
  lemma AcceptedAtRateOne(frozen: set<Address>, bank: ProgramHash, tx: Transaction, items: seq<Item>)
    requires Covers(frozen, 1.0, bank, tx, items) && CrossChain(bank)
    requires forall o | o in tx.outputs :: o.value >= 0
    ensures forall h | !CrossChain(h) :: SumOf(tx.outputs, ValueTo(h)) == SumOf(items, Owed(Encodes(h)))
    ensures SumOf(tx.outputs, ValueTo(bank)) == SumOf(tx.inputs, Amount()) - SumOf(items, Taken())
  {
    AcceptedIsSound(frozen, 1.0, bank, tx, items);
    forall h | !CrossChain(h) ensures SumOf(tx.outputs, ValueTo(h)) == SumOf(items, Owed(Encodes(h))) {
      ConvAtOne(SumOf(items, Owed(Encodes(h))));
    }
    forall x | x in items ensures Taken()(x) == Fee(1.0)(x) + Credited(1.0)(x) {
      ConvAtOne(x.asset.crossChain);
      ConvAtOne(x.asset.amount - x.asset.crossChain);
    }
    SumPlus(items, Fee(1.0), Credited(1.0), Taken());
  }

  /** The older check has the same worth. A frozen target gets through it only when the
      checking node has all rows in its own database; that it then does is
      WithdrawExactness.FrozenPassIff. */
  lemma OldCheckIsSound(w: World, tx: Transaction, genesis: ProgramHash, hashes: seq<nat>, h: ProgramHash)
    requires w.Valid() && AcceptsOld(w, tx, genesis, hashes) && CrossChain(genesis) && !CrossChain(h)
    requires forall o | o in tx.outputs :: o.value >= 0
    ensures genesis in w.chains && Load(w.chains[genesis], hashes).Some?
    ensures var side := w.chains[genesis];
            var items := Flatten(Load(side, hashes).value);
            && SumOf(tx.outputs, ValueTo(h)) == Conv(SumOf(items, Owed(Encodes(h))), side.rate)
            && SumOf(tx.outputs, ValueTo(genesis))
                 == SumOf(tx.inputs, Amount()) - SumOf(items, Fee(side.rate)) - SumOf(items, Credited(side.rate))
            && ((exists x :: x in items && x.asset.target in w.frozen) ==>
                  |side.order(Elements(hashes) * side.db.Keys)| == |hashes|)
  {
    var side := w.chains[genesis];
    assert ValidChain(side);
    var items := Flatten(Load(side, hashes).value);
    AcceptedIsSound(FrozenFor(side, hashes, w.frozen), side.rate, genesis, tx, items);
  }
}
