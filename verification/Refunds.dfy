/** Returning failed deposits: the transaction that pays them back
    (CreateFailedDepositTransaction) against what the other arbiters check before they
    sign it (checkReturnDepositTxPayload). */
module Refunds {
  import opened CoinSelection
  import opened Lists
  import opened Options
  import opened Sums
  import opened Withdrawals
  import WithdrawBuilder

  /** A failed deposit as the proposer stored it. */
  datatype Deposit = Deposit(id: nat, target: Address, amount: int)

  /** `fee` is ReturnDepositTransactionFee. */
  datatype Source = Source(bank: ProgramHash, rate: real, fee: int, utxos: int -> seq<Utxo>)

  predicate Parse(ds: seq<Deposit>) {
    forall i | 0 <= i < |ds| :: ds[i].target.Encodes?
  }

  function RefundOf(d: Deposit, src: Source): Output
    requires src.rate > 0.0 && d.target.Encodes?
  {
    Output(d.target.hash, Conv(d.amount - src.fee, src.rate), Refund(src.bank, d.id))
  }

  function RefundsOf(ds: seq<Deposit>, src: Source): (os: seq<Output>)
    requires src.rate > 0.0 && Parse(ds)
    ensures |os| == |ds|
  {
    seq(|ds|, i requires 0 <= i < |ds| => RefundOf(ds[i], src))
  }

  function Locked(rate: real): Deposit -> int
    requires rate > 0.0
  {
    (d: Deposit) => Conv(d.amount, rate)
  }

  function Returned(rate: real, fee: int): Deposit -> int
    requires rate > 0.0
  {
    (d: Deposit) => Conv(d.amount - fee, rate)
  }

  function Build(ds: seq<Deposit>, src: Source): Option<Transaction>
    requires src.rate > 0.0
  {
    if !Parse(ds) then None
    else
      var total := SumOf(ds, Locked(src.rate));
      match Select(src.utxos(total), total)
      case NotEnough => None
      case Selected(inputs, change) =>
        Some(Transaction(inputs, RefundsOf(ds, src) + WithdrawBuilder.ChangeTo(src.bank, change)))
  }

  method CreateFailedDepositTransaction(ds: seq<Deposit>, src: Source) returns (r: Option<Transaction>)
    requires src.rate > 0.0
    ensures r == Build(ds, src)
  {
    var total := 0;
    var outputs: seq<Output> := [];
    for i := 0 to |ds|
      invariant Parse(ds[..i]) && outputs == RefundsOf(ds[..i], src) && total == SumOf(ds[..i], Locked(src.rate))
    {
      if ds[i].target.Malformed? {
        assert !Parse(ds);
        return None;
      }
      SumTake(ds, i, Locked(src.rate));
      outputs := outputs + [RefundOf(ds[i], src)];
      total := total + Conv(ds[i].amount, src.rate);
    }
    assert ds[..|ds|] == ds;
    var selection := SelectInputs(src.utxos(total), total);
    match selection {
      case NotEnough => return None;
      case Selected(inputs, change) =>
        assert outputs + [] == outputs;
        if change > 0 {
          outputs := outputs + [Output(src.bank, change, Plain)];
        }
        return Some(Transaction(inputs, outputs));
    }
  }

  /** The transaction is built if and only if every stored target parses and the unspent
      outputs cover the deposits. It returns each deposit in turn, less the fee and
      converted, and gives the bank what the inputs hold beyond the deposits, if anything. */
  lemma BuildIff(ds: seq<Deposit>, src: Source)
    requires src.rate > 0.0 && SumOf(ds, Locked(src.rate)) >= 0 && Positive(src.utxos(SumOf(ds, Locked(src.rate))))
    ensures var r, locked := Build(ds, src), SumOf(ds, Locked(src.rate));
            && (r.Some? <==> (forall i | 0 <= i < |ds| :: ds[i].target.Encodes?)
                             && SumOf(src.utxos(locked), Amount()) >= locked)
            && (r.Some? ==>
                  var outputs, change := r.value.outputs, SumOf(r.value.inputs, Amount()) - locked;
                  && change >= 0 && |outputs| == |ds| + (if change > 0 then 1 else 0)
                  && (forall i | 0 <= i < |ds| ::
                        outputs[i] == Output(ds[i].target.hash, Conv(ds[i].amount - src.fee, src.rate),
                                             Refund(src.bank, ds[i].id)))
                  && (change > 0 ==> outputs[|ds|] == Output(src.bank, change, Plain)))
  {
    var locked := SumOf(ds, Locked(src.rate));
    SelectionBalances(src.utxos(locked), locked);
  }

  // ---- the check -------------------------------------------------------------------------

  /** A deposit on the main chain: what it locked for each bank, and who paid it, if
      the main node hands out the transaction it spends. */
  datatype Origin = Origin(locked: ProgramHash -> int, payer: Option<ProgramHash>)

  /** The side chains this node knows, the deposits each of them reports as failed, and
      the deposits the main node hands out. */
  datatype World = World(chains: set<ProgramHash>, failed: set<(ProgramHash, nat)>, origins: map<nat, Origin>, fee: int)

  datatype Verdict = Exact | Wrong | GivesUp

  /** One refund. When the payer cannot be looked up, the loop is left. */
  function Judge(w: World, o: Output): Verdict
    requires o.kind.Refund?
  {
    if o.kind.genesis !in w.chains || (o.kind.genesis, o.kind.deposit) !in w.failed then Wrong
    else if o.kind.deposit !in w.origins then Wrong
    else
      var origin := w.origins[o.kind.deposit];
      if origin.payer.None? then GivesUp
      else if o.value != origin.locked(o.kind.genesis) - w.fee then Wrong
      else if o.to != origin.payer.value then Wrong
      else Exact
  }

  /** Index i is reached: no refund before it ended the check. */
  ghost predicate Reached(w: World, outputs: seq<Output>, i: nat)
    requires i <= |outputs|
  {
    forall j | 0 <= j < i && outputs[j].kind.Refund? :: Judge(w, outputs[j]).Exact?
  }

  ghost predicate GaveUp(w: World, outputs: seq<Output>, i: nat)
    requires i < |outputs|
  {
    Reached(w, outputs, i) && outputs[i].kind.Refund? && Judge(w, outputs[i]).GivesUp?
  }

  ghost predicate Accepts(w: World, outputs: seq<Output>) {
    Reached(w, outputs, |outputs|) || exists i :: 0 <= i < |outputs| && GaveUp(w, outputs, i)
  }

  method CheckReturnDeposit(w: World, outputs: seq<Output>) returns (ok: bool)
    ensures ok <==> Accepts(w, outputs)
  {
    for i := 0 to |outputs|
      invariant Reached(w, outputs, i)
    {
      var o := outputs[i];
      if !o.kind.Refund? {
        continue;
      }
      var v := Judge(w, o);
      if v.Wrong? {
        OneWrong(w, outputs, i);
        return false;
      }
      if v.GivesUp? {
        assert GaveUp(w, outputs, i);
        return true;
      }
    }
    return true;
  }

  lemma OneWrong(w: World, outputs: seq<Output>, i: nat)
    requires i < |outputs| && Reached(w, outputs, i) && outputs[i].kind.Refund? && Judge(w, outputs[i]).Wrong?
    ensures !Accepts(w, outputs)
  {
    forall j | 0 <= j < |outputs| ensures !GaveUp(w, outputs, j) {
      if j > i {
        assert !Reached(w, outputs, j);
      }
    }
  }

  // ---- what acceptance is worth ------------------------------------------------------------

  /** A known chain reports the deposit as failed, and the main node hands it out, but not
      the transaction it spends. */
  predicate UnknownPayer(w: World, o: Output)
    requires o.kind.Refund?
  {
    && o.kind.genesis in w.chains && (o.kind.genesis, o.kind.deposit) in w.failed
    && o.kind.deposit in w.origins && w.origins[o.kind.deposit].payer.None?
  }

  /** The refund pays exactly what its deposit locked, less the fee, to the one who paid
      it. */
  predicate ExactRefund(w: World, o: Output)
    requires o.kind.Refund?
  {
    && o.kind.genesis in w.chains && (o.kind.genesis, o.kind.deposit) in w.failed && o.kind.deposit in w.origins
    && o.value == w.origins[o.kind.deposit].locked(o.kind.genesis) - w.fee
    && w.origins[o.kind.deposit].payer == Some(o.to)
  }

  /** No refund in the transaction has a payer that cannot be looked up. */
  ghost predicate PayersKnown(w: World, outputs: seq<Output>) {
    forall o | o in outputs && o.kind.Refund? :: !UnknownPayer(w, o)
  }

  ghost predicate AllExact(w: World, outputs: seq<Output>) {
    forall o | o in outputs && o.kind.Refund? :: ExactRefund(w, o)
  }

  lemma JudgeIs(w: World, o: Output)
    requires o.kind.Refund?
    ensures Judge(w, o).Exact? <==> ExactRefund(w, o)
    ensures Judge(w, o).GivesUp? <==> UnknownPayer(w, o)
  {
  }

  /** The refunds before output n are exact, and there it ends: with the transaction, or
      with a payer that cannot be looked up. */
  ghost predicate ExactUpTo(w: World, outputs: seq<Output>, n: nat)
    requires n <= |outputs|
  {
    && (forall j | 0 <= j < n && outputs[j].kind.Refund? :: ExactRefund(w, outputs[j]))
    && (n == |outputs| || (outputs[n].kind.Refund? && UnknownPayer(w, outputs[n])))
  }

  /** A transaction is accepted if and only if there is such an end. */
  lemma AcceptsIff(w: World, outputs: seq<Output>)
    ensures Accepts(w, outputs) <==> exists n :: 0 <= n <= |outputs| && ExactUpTo(w, outputs, n)
  {
    forall j | 0 <= j < |outputs| && outputs[j].kind.Refund?
      ensures Judge(w, outputs[j]).Exact? <==> ExactRefund(w, outputs[j])
      ensures Judge(w, outputs[j]).GivesUp? <==> UnknownPayer(w, outputs[j]) {
      JudgeIs(w, outputs[j]);
    }
    if Reached(w, outputs, |outputs|) {
      assert ExactUpTo(w, outputs, |outputs|);
    } else if Accepts(w, outputs) {
      var i :| 0 <= i < |outputs| && GaveUp(w, outputs, i);
      assert ExactUpTo(w, outputs, i);
    }
    if n :| 0 <= n <= |outputs| && ExactUpTo(w, outputs, n) {
      assert n < |outputs| ==> GaveUp(w, outputs, n);
    }
  }

  /** Acceptance makes every refund exact if and only if all payers can be looked up. */
  lemma AcceptedIsExactIff(w: World, outputs: seq<Output>)
    requires Accepts(w, outputs)
    ensures AllExact(w, outputs) <==> PayersKnown(w, outputs)
    ensures AllExact(w, outputs) <==> Reached(w, outputs, |outputs|)
  {
    forall o | o in outputs && o.kind.Refund?
      ensures Judge(w, o).Exact? <==> ExactRefund(w, o)
      ensures Judge(w, o).GivesUp? <==> UnknownPayer(w, o) {
      JudgeIs(w, o);
    }
    if PayersKnown(w, outputs) {
      forall i | 0 <= i < |outputs| ensures !GaveUp(w, outputs, i) {
        assert outputs[i] in outputs;
      }
      forall o | o in outputs && o.kind.Refund? ensures Judge(w, o).Exact? {
        var i :| 0 <= i < |outputs| && outputs[i] == o;
      }
    }
    if AllExact(w, outputs) {
      forall o | o in outputs && o.kind.Refund? ensures Judge(w, o).Exact? {
      }
    }
  }

  /** The first payer that cannot be looked up ends the check with acceptance,
      whatever is paid from there on. */
  lemma UnknownPayerEndsTheCheck(w: World, first: Output, rest: seq<Output>)
    requires first.kind.Refund? && UnknownPayer(w, first)
    ensures Accepts(w, [first] + rest)
  {
    JudgeIs(w, first);
    assert GaveUp(w, [first] + rest, 0);
  }

  // ---- where the money goes -----------------------------------------------------------------

  type Claim = (ProgramHash, nat)

  function ClaimOf(o: Output): Claim
    requires o.kind.Refund?
  {
    (o.kind.genesis, o.kind.deposit)
  }

  /** The deposits that are returned, each once, in the order they are first named. */
  function Claims(outputs: seq<Output>): seq<Claim> {
    if outputs == [] then []
    else
      var init, last := outputs[..|outputs| - 1], outputs[|outputs| - 1];
      if !last.kind.Refund? || ClaimOf(last) in Claims(init) then Claims(init) else Claims(init) + [ClaimOf(last)]
  }

  /** An output that is no refund, or one for a deposit already returned. */
  predicate Extra(before: seq<Output>, o: Output) {
    !o.kind.Refund? || ClaimOf(o) in Claims(before)
  }

  predicate Names(outputs: seq<Output>, c: Claim) {
    exists o :: o in outputs && o.kind.Refund? && ClaimOf(o) == c
  }

  /** Claims lists exactly the deposits named, without repetition. */
  lemma {:induction false} ClaimsAre(outputs: seq<Output>, c: Claim)
    ensures Distinct(Claims(outputs)) && (c in Claims(outputs) <==> Names(outputs, c))
  {
    if outputs != [] {
      var init, last := outputs[..|outputs| - 1], outputs[|outputs| - 1];
      assert outputs == init + [last];
      ClaimsAre(init, c);
      assert Names(outputs, c) <==> Names(init, c) || (last.kind.Refund? && ClaimOf(last) == c);
      if !Extra(init, last) {
        DistinctSnoc(Claims(init), ClaimOf(last));
      }
    }
  }

  /** What a deposit returns to one address. */
  function DueTo(w: World, h: ProgramHash): Claim -> int {
    (c: Claim) => if c.1 in w.origins && w.origins[c.1].payer == Some(h) then w.origins[c.1].locked(c.0) - w.fee else 0
  }

  /** An address gets what the named deposits return to it, once, and nothing else. */
  predicate PaidOnce(w: World, outputs: seq<Output>, h: ProgramHash) {
    SumOf(outputs, ValueTo(h)) == SumOf(Claims(outputs), DueTo(w, h))
  }

  /** So does everybody but the bank: all other money goes back to the bank. */
  ghost predicate ReturnsOnce(w: World, bank: ProgramHash, outputs: seq<Output>) {
    forall h | h != bank :: PaidOnce(w, outputs, h)
  }

  /** Only the bank is paid by outputs beyond one refund for each deposit. */
  predicate ExtrasGoToTheBank(bank: ProgramHash, outputs: seq<Output>) {
    forall i | 0 <= i < |outputs| && Extra(outputs[..i], outputs[i]) :: outputs[i].to == bank || outputs[i].value == 0
  }

  /** What extra outputs pay to one address. */
  function ExtraTo(outputs: seq<Output>, h: ProgramHash): int {
    if outputs == [] then 0
    else
      var init, last := outputs[..|outputs| - 1], outputs[|outputs| - 1];
      ExtraTo(init, h) + if Extra(init, last) then ValueTo(h)(last) else 0
  }

  predicate NothingExtraTo(outputs: seq<Output>, h: ProgramHash) {
    ExtraTo(outputs, h) == 0
  }

  lemma {:induction false} PaidIsDueAndExtra(w: World, outputs: seq<Output>, h: ProgramHash)
    requires AllExact(w, outputs)
    ensures SumOf(outputs, ValueTo(h)) == SumOf(Claims(outputs), DueTo(w, h)) + ExtraTo(outputs, h)
  {
    if outputs != [] {
      var init, last := outputs[..|outputs| - 1], outputs[|outputs| - 1];
      PaidIsDueAndExtra(w, init, h);
      if !Extra(init, last) {
        assert last in outputs;
        SumSnoc(Claims(init), ClaimOf(last), DueTo(w, h));
      }
    }
  }

  lemma {:induction false} ExtraVanishes(outputs: seq<Output>, h: ProgramHash)
    requires forall o | o in outputs :: o.value >= 0
    ensures ExtraTo(outputs, h) >= 0
    ensures ExtraTo(outputs, h) == 0 <==>
              forall i | 0 <= i < |outputs| && Extra(outputs[..i], outputs[i]) :: outputs[i].to != h || outputs[i].value == 0
  {
    if outputs != [] {
      var n := |outputs| - 1;
      var init, last := outputs[..n], outputs[n];
      ExtraVanishes(init, h);
      assert last in outputs;
      assert forall i | 0 <= i < n :: init[..i] == outputs[..i] && init[i] == outputs[i];
      assert ExtraTo(outputs, h) == 0 <==> ExtraTo(init, h) == 0 && (Extra(init, last) ==> ValueTo(h)(last) == 0);
    }
  }

  /** Acceptance means that each deposit is returned exactly once, to its payer, and
      that all other money goes back to the bank, if and only if all payers can be
      looked up and the bank alone is paid by outputs that are no refunds or repeat
      one. The inputs play no part. */
  lemma AcceptedReturnsOnceIff(w: World, bank: ProgramHash, outputs: seq<Output>)
    requires Accepts(w, outputs) && forall o | o in outputs :: o.value >= 0
    ensures (AllExact(w, outputs) && ReturnsOnce(w, bank, outputs)) <==>
              PayersKnown(w, outputs) && ExtrasGoToTheBank(bank, outputs)
  {
    AcceptedIsExactIff(w, outputs);
    if AllExact(w, outputs) {
      forall h ensures PaidOnce(w, outputs, h) <==> NothingExtraTo(outputs, h) {
        PaidIsDueAndExtra(w, outputs, h);
      }
      NothingExtraIff(bank, outputs);
    }
  }

  lemma NothingExtraIff(bank: ProgramHash, outputs: seq<Output>)
    requires forall o | o in outputs :: o.value >= 0
    ensures (forall h | h != bank :: NothingExtraTo(outputs, h)) <==> ExtrasGoToTheBank(bank, outputs)
  {
    if forall h | h != bank :: NothingExtraTo(outputs, h) {
      forall i | 0 <= i < |outputs| && Extra(outputs[..i], outputs[i])
        ensures outputs[i].to == bank || outputs[i].value == 0
      {
        assert outputs[i].to != bank ==> NothingExtraTo(outputs, outputs[i].to);
        ExtraVanishes(outputs, outputs[i].to);
      }
    }
    if ExtrasGoToTheBank(bank, outputs) {
      forall h | h != bank ensures NothingExtraTo(outputs, h) {
        ExtraVanishes(outputs, h);
      }
    }
  }

  /** The inputs at which it fails: to any transaction whose refunds are all exact, an
      output that is no refund, or one of the refunds once more, can be added in favour
      of anybody. It is still accepted and pays more than is due. */
  lemma ExtraIsAccepted(w: World, bank: ProgramHash, outputs: seq<Output>, extra: Output)
    requires AllExact(w, outputs) && forall o | o in outputs :: o.value >= 0
    requires !extra.kind.Refund? || extra in outputs
    requires extra.to != bank && extra.value > 0
    ensures Accepts(w, outputs + [extra]) && !ReturnsOnce(w, bank, outputs + [extra])
  {
    var all := outputs + [extra];
    forall o | o in all && o.kind.Refund? ensures o in outputs && Judge(w, o).Exact? {
    }
    assert Reached(w, all, |all|) by {
      forall i | 0 <= i < |all| && all[i].kind.Refund? ensures Judge(w, all[i]).Exact? {
        assert all[i] in all;
      }
    }
    if extra.kind.Refund? {
      ClaimsAre(outputs, ClaimOf(extra));
    }
    assert all[..|outputs|] == outputs && all[|outputs|] == extra;
    assert !ExtrasGoToTheBank(bank, all);
    AcceptedReturnsOnceIff(w, bank, all);
  }

  // ---- builder and check ------------------------------------------------------------------------

  /** A peer knows a deposit: its side chain reports it as failed, and the main node
      hands out the deposit and the transaction it spends. */
  predicate Knows(w: World, src: Source, d: Deposit) {
    (src.bank, d.id) in w.failed && d.id in w.origins && w.origins[d.id].payer.Some?
  }

  /** The refund of the stored deposit is the refund of the deposit on the main chain. */
  predicate Agrees(w: World, src: Source, d: Deposit)
    requires src.rate > 0.0 && Knows(w, src, d)
  {
    && d.target == Encodes(w.origins[d.id].payer.value)
    && Conv(d.amount - src.fee, src.rate) == w.origins[d.id].locked(src.bank) - src.fee
  }

  lemma BuiltOutputs(ds: seq<Deposit>, src: Source, i: nat)
    requires src.rate > 0.0 && Build(ds, src).Some?
    ensures var outputs := Build(ds, src).value.outputs;
            && |ds| <= |outputs| && Parse(ds)
            && (i < |ds| ==> outputs[i] == RefundOf(ds[i], src))
            && (|ds| <= i < |outputs| ==> outputs[i].kind.Plain? && outputs[i].to == src.bank)
  {
  }

  /** A transaction built from stored deposits that the peer knows is accepted if and
      only if each stored target is who paid the deposit, and the refund, converted at
      the exchange rate, is what the main chain counts for the bank, less the fee. At
      rate 1 that is to have stored that amount. */
  lemma BuiltIsAcceptedIff(w: World, ds: seq<Deposit>, src: Source)
    requires src.rate > 0.0 && src.bank in w.chains && w.fee == src.fee && Build(ds, src).Some?
    requires forall i | 0 <= i < |ds| :: Knows(w, src, ds[i])
    ensures Accepts(w, Build(ds, src).value.outputs) <==> forall i | 0 <= i < |ds| :: Agrees(w, src, ds[i])
    ensures src.rate == 1.0 ==>
              forall i | 0 <= i < |ds| :: Agrees(w, src, ds[i]) <==>
                var origin := w.origins[ds[i].id];
                ds[i].target == Encodes(origin.payer.value) && ds[i].amount == origin.locked(src.bank)
  {
    var outputs := Build(ds, src).value.outputs;
    forall i | 0 <= i < |outputs| && outputs[i].kind.Refund?
      ensures i < |ds| && Judge(w, outputs[i]) == if Agrees(w, src, ds[i]) then Exact else Wrong
    {
      BuiltOutputs(ds, src, i);
    }
    forall i | 0 <= i < |ds| ensures outputs[i].kind.Refund? {
      BuiltOutputs(ds, src, i);
    }
    forall j | 0 <= j < |outputs| ensures !GaveUp(w, outputs, j) {
    }
    if src.rate == 1.0 {
      forall i | 0 <= i < |ds| ensures Conv(ds[i].amount - src.fee, src.rate) == ds[i].amount - src.fee {
        ConvAtOne(ds[i].amount - src.fee);
      }
    }
  }

  /** What the builder makes of different deposits has no output in anybody's favour
      beyond one refund each. */
  lemma BuiltHasNoExtras(ds: seq<Deposit>, src: Source)
    requires src.rate > 0.0 && Build(ds, src).Some?
    requires forall i, j | 0 <= i < j < |ds| :: ds[i].id != ds[j].id
    ensures ExtrasGoToTheBank(src.bank, Build(ds, src).value.outputs)
  {
    var outputs := Build(ds, src).value.outputs;
    forall i | 0 <= i < |outputs| && Extra(outputs[..i], outputs[i]) ensures outputs[i].to == src.bank {
      BuiltOutputs(ds, src, i);
      if i < |ds| {
        ClaimsAre(outputs[..i], ClaimOf(outputs[i]));
        var o :| o in outputs[..i] && o.kind.Refund? && ClaimOf(o) == ClaimOf(outputs[i]);
        var j :| 0 <= j < i && outputs[j] == o;
        BuiltOutputs(ds, src, j);
        assert false;
      }
    }
  }

  /** So an accepted transaction of the builder returns each of its deposits exactly
      once and gives the rest back to the bank. */
  lemma BuiltReturnsOnce(w: World, ds: seq<Deposit>, src: Source)
    requires src.rate > 0.0 && src.bank in w.chains && w.fee == src.fee && Build(ds, src).Some?
    requires forall i | 0 <= i < |ds| :: Knows(w, src, ds[i])
    requires forall i, j | 0 <= i < j < |ds| :: ds[i].id != ds[j].id
    requires forall o | o in Build(ds, src).value.outputs :: o.value >= 0
    requires Accepts(w, Build(ds, src).value.outputs)
    ensures AllExact(w, Build(ds, src).value.outputs) && ReturnsOnce(w, src.bank, Build(ds, src).value.outputs)
  {
    var outputs := Build(ds, src).value.outputs;
    BuiltHasNoExtras(ds, src);
    forall o | o in outputs && o.kind.Refund? ensures !UnknownPayer(w, o) {
      var i :| 0 <= i < |outputs| && outputs[i] == o;
      BuiltOutputs(ds, src, i);
    }
    AcceptedReturnsOnceIff(w, src.bank, outputs);
  }

  /** What the main chain keeps of a deposit. */
  function Kept(rate: real, fee: int): Deposit -> int
    requires rate > 0.0
  {
    (d: Deposit) => Conv(d.amount, rate) - Conv(d.amount - fee, rate)
  }

  lemma LockedSplit(ds: seq<Deposit>, rate: real, fee: int)
    requires rate > 0.0 && forall i | 0 <= i < |ds| :: ds[i].amount >= 0
    ensures SumOf(ds, Locked(rate)) == SumOf(ds, Returned(rate, fee)) + SumOf(ds, Kept(rate, fee))
    ensures SumOf(ds, Locked(rate)) >= 0
  {
    forall d | d in ds ensures Locked(rate)(d) == Returned(rate, fee)(d) + Kept(rate, fee)(d) && Locked(rate)(d) >= 0 {
      ConvAdd(d.amount, 0, rate);
    }
    SumPlus(ds, Returned(rate, fee), Kept(rate, fee), Locked(rate));
    SumVanishes(ds, Locked(rate));
  }

  lemma RefundSum(ds: seq<Deposit>, src: Source, change: int)
    requires src.rate > 0.0 && Parse(ds) && change >= 0
    ensures SumOf(RefundsOf(ds, src) + WithdrawBuilder.ChangeTo(src.bank, change), Value())
              == SumOf(ds, Returned(src.rate, src.fee)) + change
  {
    SumSame(RefundsOf(ds, src), ds, Value(), Returned(src.rate, src.fee));
    if change > 0 {
      SumSnoc(RefundsOf(ds, src), Output(src.bank, change, Plain), Value());
    } else {
      assert RefundsOf(ds, src) + [] == RefundsOf(ds, src);
    }
  }

  /** At any rate the inputs exceed the outputs by what is kept of each deposit: its
      amount less its refund, both converted. At rate 1 that is one fee for each. The
      check does not look at inputs. */
  lemma OneFeeEach(ds: seq<Deposit>, src: Source)
    requires src.rate > 0.0 && Build(ds, src).Some?
    requires forall i | 0 <= i < |ds| :: ds[i].amount >= 0
    requires Positive(src.utxos(SumOf(ds, Locked(src.rate))))
    ensures var tx := Build(ds, src).value;
            && SumOf(tx.inputs, Amount()) == SumOf(tx.outputs, Value()) + SumOf(ds, Kept(src.rate, src.fee))
            && (src.rate == 1.0 ==> SumOf(tx.inputs, Amount()) == SumOf(tx.outputs, Value()) + src.fee * |ds|)
  {
    var total := SumOf(ds, Locked(src.rate));
    LockedSplit(ds, src.rate, src.fee);
    SelectionBalances(src.utxos(total), total);
    RefundSum(ds, src, Select(src.utxos(total), total).change);
    KeptAtOne(ds, src.fee);
  }

  lemma KeptAtOne(ds: seq<Deposit>, fee: int)
    ensures SumOf(ds, Kept(1.0, fee)) == fee * |ds|
  {
    forall d | d in ds ensures Kept(1.0, fee)(d) == fee {
      ConvAtOne(d.amount);
      ConvAtOne(d.amount - fee);
    }
    SumBounds(ds, Kept(1.0, fee), fee, fee);
  }
}
