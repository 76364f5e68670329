/** Withdrawals from a side chain, the main-chain transactions that pay them, and
    the exchange rate between the two. */
module Withdrawals {
  import opened CoinSelection
  import opened Sums

  const CROSS_CHAIN_PREFIX := 0x4B

  datatype ProgramHash = ProgramHash(prefix: nat, id: nat)

  /** A target address either encodes a program hash, or does not parse. */
  datatype Address = Encodes(hash: ProgramHash) | Malformed(text: string)

  /** One payout of a withdrawal: what leaves the side chain, and what of it the
      receiver is to get. The rest is the fee. */
  datatype Asset = Asset(target: Address, amount: int, crossChain: int)

  datatype WithdrawTx = WithdrawTx(id: nat, assets: seq<Asset>)

  predicate DistinctIds(txs: seq<WithdrawTx>) {
    forall i, j | 0 <= i < j < |txs| :: txs[i].id != txs[j].id
  }

  function Ids(txs: seq<WithdrawTx>): (hs: seq<nat>)
    ensures |hs| == |txs|
  {
    seq(|txs|, i requires 0 <= i < |txs| => txs[i].id)
  }

  /** The payload of an output: the withdrawal it pays, the failed deposit it returns,
      or nothing. */
  datatype Kind = Plain | Withdraw(genesis: ProgramHash, sideTx: nat) | Refund(genesis: ProgramHash, deposit: nat)

  datatype Output = Output(to: ProgramHash, value: int, kind: Kind)

  datatype Transaction = Transaction(inputs: seq<Utxo>, outputs: seq<Output>)

  predicate CrossChain(h: ProgramHash) {
    h.prefix == CROSS_CHAIN_PREFIX
  }

  // ---- the exchange rate ---------------------------------------------------------------

  /** Conversion to Fixed64 drops the fraction. */
  function Truncate(x: real): int {
    if x >= 0.0 then x.Floor else -(-x).Floor
  }

  function Conv(a: int, rate: real): int
    requires rate > 0.0
  {
    Truncate(a as real / rate)
  }

  lemma ConvAtOne(a: int)
    ensures Conv(a, 1.0) == a
  {
    assert a as real / 1.0 == a as real;
  }

  /** The converted amount is the largest whole number of units that the rate allows. */
  lemma ConvIs(a: int, rate: real)
    requires rate > 0.0 && a >= 0
    ensures Conv(a, rate) as real * rate <= a as real < (Conv(a, rate) + 1) as real * rate
    ensures Conv(-a, rate) == -Conv(a, rate)
  {
    var q := a as real / rate;
    Quotients(a as real, 0.0, rate);
    FloorIs(q);
    QuotientTimes(a as real, rate);
    Between(a as real, q, Truncate(q), rate);
    NegatedQuotient(a, rate);
  }

  lemma QuotientTimes(x: real, rate: real)
    requires rate > 0.0
    ensures x / rate * rate == x
  {
  }

  lemma Between(a: real, q: real, c: int, rate: real)
    requires rate > 0.0 && q * rate == a && c as real <= q < (c + 1) as real
    ensures c as real * rate <= a < (c + 1) as real * rate
  {
    ScaledBounds(c as real, q, rate);
    ScaledBounds(q, (c + 1) as real, rate);
  }

  lemma FloorIs(q: real)
    requires q >= 0.0
    ensures Truncate(q) as real <= q < (Truncate(q) + 1) as real
  {
  }

  lemma NegatedQuotient(a: int, rate: real)
    requires rate > 0.0 && a >= 0
    ensures Conv(-a, rate) == -Conv(a, rate)
  {
    Quotients(a as real, (-a) as real, rate);
    Quotients(a as real, 0.0, rate);
    assert (-a) as real / rate == -(a as real / rate);
    MinusTruncates(a as real / rate);
  }

  lemma MinusTruncates(x: real)
    requires x >= 0.0
    ensures Truncate(-x) == -Truncate(x)
  {
  }

  lemma ScaledBounds(x: real, y: real, rate: real)
    requires rate > 0.0
    ensures x <= y ==> x * rate <= y * rate
    ensures x < y ==> x * rate < y * rate
  {
  }

  lemma Quotients(x: real, y: real, rate: real)
    requires rate > 0.0
    ensures (x + y) / rate == x / rate + y / rate
    ensures x >= 0.0 ==> x / rate >= 0.0
  {
  }

  /** Converting two amounts apart loses at most one unit. */
  lemma ConvAdd(a: nat, b: nat, rate: real)
    requires rate > 0.0
    ensures 0 <= Conv(a + b, rate) - Conv(a, rate) - Conv(b, rate) <= 1
    ensures Conv(a, rate) >= 0 && Conv(0, rate) == 0
  {
    Quotients(a as real, b as real, rate);
    Quotients(b as real, a as real, rate);
    assert (a + b) as real == a as real + b as real;
  }

  // ---- a batch of withdrawals, asset by asset ----------------------------------------------

  datatype Item = Item(asset: Asset, sideTx: nat)

  function Items(tx: WithdrawTx): (items: seq<Item>)
    ensures |items| == |tx.assets|
  {
    seq(|tx.assets|, i requires 0 <= i < |tx.assets| => Item(tx.assets[i], tx.id))
  }

  /** parseUserWithdrawTransactions: every asset with the hash of its withdrawal. */
  function Flatten(txs: seq<WithdrawTx>): seq<Item> {
    if txs == [] then [] else Flatten(txs[..|txs| - 1]) + Items(txs[|txs| - 1])
  }

  /** The assets of a batch stand in the order of the withdrawals, each under its hash. */
  lemma {:induction false} FlattenInOrder(a: seq<WithdrawTx>, b: seq<WithdrawTx>)
    ensures Flatten(a + b) == Flatten(a) + Flatten(b)
    ensures forall tx :: Flatten([tx]) == seq(|tx.assets|, i requires 0 <= i < |tx.assets| => Item(tx.assets[i], tx.id))
  {
    forall tx ensures Flatten([tx]) == Items(tx) {
      assert [tx][..0] == [] && Flatten([]) == [];
    }
    if b == [] {
      assert a + b == a;
    } else {
      assert (a + b)[..|a + b| - 1] == a + b[..|b| - 1];
      FlattenInOrder(a, b[..|b| - 1]);
    }
  }

  /** What the receiver gets, what is taken, and the fee, in main-chain units. */
  function Credited(rate: real): Item -> int
    requires rate > 0.0
  {
    (x: Item) => Conv(x.asset.crossChain, rate)
  }

  function Charged(rate: real): Item -> int
    requires rate > 0.0
  {
    (x: Item) => Conv(x.asset.amount, rate)
  }

  function Fee(rate: real): Item -> int
    requires rate > 0.0
  {
    (x: Item) => Conv(x.asset.amount - x.asset.crossChain, rate)
  }

  /** What is owed to one address, in side-chain units, and what it is credited. */
  function Owed(a: Address): Item -> int {
    (x: Item) => if x.asset.target == a then x.asset.crossChain else 0
  }

  function CreditedTo(a: Address, rate: real): Item -> int
    requires rate > 0.0
  {
    (x: Item) => if x.asset.target == a then Conv(x.asset.crossChain, rate) else 0
  }

  function Targets(items: seq<Item>): set<Address> {
    set x | x in items :: x.asset.target
  }

  // ---- the outputs of a transaction -----------------------------------------------------

  function Value(): Output -> int {
    (o: Output) => o.value
  }

  function ValueTo(h: ProgramHash): Output -> int {
    (o: Output) => if o.to == h then o.value else 0
  }

  function ValueNotTo(h: ProgramHash): Output -> int {
    (o: Output) => if o.to != h then o.value else 0
  }

  function OneNotTo(h: ProgramHash): Output -> int {
    (o: Output) => if o.to != h then 1 else 0
  }

  /** Ordinary receivers, by address. */
  function Payees(outputs: seq<Output>): set<ProgramHash> {
    set o | o in outputs && !CrossChain(o.to) :: o.to
  }
}
