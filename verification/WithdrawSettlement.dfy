/** How submitting a withdraw transaction settles withdrawals (SubmitWithdrawTransaction):
    finding the data store of its side chain, and moving the hashes that the payload
    lists under the verdict of the main chain. And what of this the transactions of the
    three builders bring about. */
module WithdrawSettlement {
  import opened FinishedStore
  import opened Options
  import opened Settlement
  import Builder = WithdrawBuilder
  import Checker = WithdrawChecker
  import Completeness = WithdrawCompleteness
  import W = Withdrawals

  type Chain = W.ProgramHash

  datatype Version = V0 | V1 | V2
  datatype Payload = Payload(version: Version, genesis: Option<Chain>, hashes: seq<Hash>)

  /** A transaction as far as its submission looks at it. */
  datatype Submission = Submission(payload: Payload, outputs: seq<W.Output>)

  /** The side chains this node knows and those it has a data store for. */
  datatype Node = Node(chains: set<Chain>, stores: set<Chain>)

  // ---- finding the data store -------------------------------------------------------------------

  datatype Located = Crashes | Fails | Found(genesis: Chain)

  /** By the payload in version 0, otherwise by the withdraw outputs, which must all name
      the same known chain. Without any, a missing chain is asked for its key. */
  function Locate(node: Node, tx: Submission): Located {
    if tx.payload.version.V0? then
      if tx.payload.genesis.Some? && tx.payload.genesis.value in node.stores then Found(tx.payload.genesis.value)
      else Fails
    else
      var named := Checker.ChainOf(tx.outputs);
      if named.None? then Crashes
      else if named.value !in node.chains || !Checker.OneChain(tx.outputs, named.value) then Fails
      else if named.value in node.stores then Found(named.value)
      else Fails
  }

  /** The store that a submission is looked up in. */
  predicate StoreFor(node: Node, tx: Submission, g: Chain) {
    g in node.stores &&
    if tx.payload.version.V0? then tx.payload.genesis == Some(g)
    else g in node.chains && Checker.AllName(tx.outputs, g)
  }

  lemma LocateIff(node: Node, tx: Submission, g: Chain)
    ensures Locate(node, tx) == Found(g) <==> StoreFor(node, tx, g)
    ensures Locate(node, tx) == Crashes <==>
              !tx.payload.version.V0? && forall i | 0 <= i < |tx.outputs| :: !tx.outputs[i].kind.Withdraw?
  {
    Checker.ChainIs(tx.outputs);
    Checker.ChainNamed(tx.outputs, g);
  }

  // ---- submitting ---------------------------------------------------------------------------------

  /** The pending withdrawals of all side chains, and the finished store. */
  type Entry = (Chain, Hash)
  datatype Tables = Tables(pending: set<Entry>, finished: State)

  function Rows(g: Chain, hashes: seq<Hash>): set<Entry> {
    set h | h in hashes :: (g, h)
  }

  function VerdictOf(r: Reply): Verdict {
    Classify(r, DOUBLE_SPEND, SIDECHAIN_TX_DUPLICATE)
  }

  /** What follows once the store is found. */
  function Settle(t: Tables, g: Chain, hashes: seq<Hash>, bytes: Bytes, r: Reply): Tables {
    match VerdictOf(r)
    case Refused => Tables(t.pending - Rows(g, hashes), AddFailed(t.finished, hashes, bytes))
    case Accepted => Tables(t.pending - Rows(g, hashes), AddSucceed(t.finished, hashes))
    case SendAgain => t
  }

  /** The transaction has been sent to the main chain before the store is looked for. */
  function Submit(node: Node, t: Tables, tx: Submission, bytes: Bytes, r: Reply): Tables {
    match Locate(node, tx)
    case Crashes => t
    case Fails => t
    case Found(g) => Settle(t, g, tx.payload.hashes, bytes, r)
  }

  /** What follows a report that these withdrawals have been paid. */
  function Clean(t: Tables, g: Chain, hashes: seq<Hash>): Tables {
    Tables(t.pending - Rows(g, hashes), AddSucceed(t.finished, hashes))
  }

  /** The payload lists h, g has the store, and the answer is a verdict. */
  predicate SettlesAt(node: Node, tx: Submission, r: Reply, g: Chain, h: Hash) {
    StoreFor(node, tx, g) && h in tx.payload.hashes && (Refuses(r, 45010) || Takes(r))
  }

  predicate SettlesHash(node: Node, tx: Submission, r: Reply, h: Hash) {
    exists g :: g in node.stores && SettlesAt(node, tx, r, g, h)
  }

  lemma SettlesFound(node: Node, tx: Submission, r: Reply, h: Hash)
    ensures SettlesHash(node, tx, r, h) <==>
              Locate(node, tx).Found? && SettlesAt(node, tx, r, Locate(node, tx).genesis, h)
  {
    if Locate(node, tx).Found? {
      LocateIff(node, tx, Locate(node, tx).genesis);
    }
    if SettlesHash(node, tx, r, h) {
      var g :| g in node.stores && SettlesAt(node, tx, r, g, h);
      LocateIff(node, tx, g);
    }
  }

  lemma SettledLookup(node: Node, t: Tables, tx: Submission, bytes: Bytes, r: Reply, h: Hash)
    requires RowsExist(t.finished)
    ensures var t' := Submit(node, t, tx, bytes, r);
            && RowsExist(t'.finished)
            && Lookup(t'.finished, h) ==
                 if Lookup(t.finished, h).Some? then Lookup(t.finished, h)
                 else if !SettlesHash(node, tx, r, h) then None
                 else if Refuses(r, 45010) then Some((false, bytes)) else Some((true, []))
  {
    var hashes := tx.payload.hashes;
    SettlesFound(node, tx, r, h);
    if Locate(node, tx).Found? {
      LocateIff(node, tx, Locate(node, tx).genesis);
    }
    ApplyRows(t.finished, Failed(hashes, bytes));
    ApplyRows(t.finished, Succeeded(hashes));
    ApplyLookup(t.finished, Failed(hashes, bytes), h);
    ApplyLookup(t.finished, Succeeded(hashes), h);
  }

  /** A withdrawal leaves the pending table of its chain if and only if that chain's
      store is the one found, the payload lists it, and the answer is a verdict; and then
      it stands as failed with these bytes or as succeeded, unless it had a verdict
      before. */
  lemma SubmitMovesIff(node: Node, t: Tables, tx: Submission, bytes: Bytes, r: Reply, g: Chain, h: Hash)
    requires RowsExist(t.finished)
    ensures var t' := Submit(node, t, tx, bytes, r);
            && ((g, h) in t'.pending <==> (g, h) in t.pending && !SettlesAt(node, tx, r, g, h))
            && (SettlesAt(node, tx, r, g, h) && Lookup(t.finished, h).None? ==>
                  Lookup(t'.finished, h) == if Refuses(r, 45010) then Some((false, bytes)) else Some((true, [])))
  {
    SettledLookup(node, t, tx, bytes, r, h);
    LocateIff(node, tx, g);
  }

  // ---- what the builders make -----------------------------------------------------------------------

  datatype Maker = Old | Current | Schnorr

  function Untyped(outputs: seq<W.Output>): (os: seq<W.Output>)
    ensures |os| == |outputs|
  {
    seq(|outputs|, i requires 0 <= i < |outputs| => outputs[i].(kind := W.Plain))
  }

  function Strings(items: seq<W.Item>, text: nat -> Hash): seq<Hash> {
    seq(|items|, i requires 0 <= i < |items| => text(items[i].sideTx))
  }

  /** The old builder lists the withdrawals in the payload, which it nevertheless gives
      version 1, and leaves its outputs without a type. The other two name them in the
      outputs only; the Schnorr payload is replaced by one with the signers. */
  function Made(maker: Maker, txs: seq<W.WithdrawTx>, src: Builder.Source, text: nat -> Hash): Option<Submission>
    requires src.rate > 0.0
  {
    match Builder.Build(txs, src)
    case None => None
    case Some(tx) =>
      Some(match maker
           case Old => Submission(Payload(V1, Some(src.bank), Strings(W.Flatten(txs), text)), Untyped(tx.outputs))
           case Current => Submission(Payload(V1, None, []), tx.outputs)
           case Schnorr => Submission(Payload(V2, None, []), tx.outputs))
  }

  lemma {:induction false} PlainNamesNoChain(outputs: seq<W.Output>)
    requires forall i | 0 <= i < |outputs| :: !outputs[i].kind.Withdraw?
    ensures Checker.ChainOf(outputs).None?
  {
    if outputs != [] {
      PlainNamesNoChain(outputs[..|outputs| - 1]);
    }
  }

  /** Either nothing is listed, or no store is found. */
  predicate Moot(node: Node, tx: Submission) {
    tx.payload.hashes == [] || !Locate(node, tx).Found?
  }

  /** Submitting what the old builder made ends in the crash; what the others made finds
      its store, if there is one, and lists nothing. */
  lemma MadeIsMoot(node: Node, maker: Maker, txs: seq<W.WithdrawTx>, src: Builder.Source, text: nat -> Hash)
    requires src.rate > 0.0 && Made(maker, txs, src, text).Some?
    ensures var tx := Made(maker, txs, src, text).value;
            && Moot(node, tx)
            && (maker.Old? ==> Locate(node, tx) == Crashes)
            && (!maker.Old? && W.Flatten(txs) != [] ==>
                  Locate(node, tx) == if src.bank in node.chains && src.bank in node.stores then Found(src.bank) else Fails)
  {
    var tx := Made(maker, txs, src, text).value;
    var items := W.Flatten(txs);
    if maker.Old? {
      PlainNamesNoChain(tx.outputs);
    } else if items != [] {
      var change := tx.outputs[|items|..];
      assert tx.outputs == Builder.Payouts(items, src) + change;
      if change == [] {
        Completeness.BuiltHashes(items, src, 0);
      } else {
        Completeness.BuiltHashes(items, src, change[0].value);
      }
    }
  }

  lemma MootMovesNothing(node: Node, t: Tables, tx: Submission, bytes: Bytes, r: Reply, h: Hash)
    requires Moot(node, tx) && RowsExist(t.finished)
    ensures var t' := Submit(node, t, tx, bytes, r);
            t'.pending == t.pending && Lookup(t'.finished, h) == Lookup(t.finished, h)
  {
    SettledLookup(node, t, tx, bytes, r, h);
    SettlesFound(node, tx, r, h);
    if tx.payload.hashes == [] && Locate(node, tx).Found? {
      assert Rows(Locate(node, tx).genesis, []) == {};
    }
  }

  /** So no submission of any of the three moves a withdrawal out of its pending table or
      gives one a verdict, whatever the main chain answers. */
  lemma MadeMovesNothing(node: Node, t: Tables, maker: Maker, txs: seq<W.WithdrawTx>, src: Builder.Source,
                         text: nat -> Hash, bytes: Bytes, r: Reply, h: Hash)
    requires src.rate > 0.0 && Made(maker, txs, src, text).Some? && RowsExist(t.finished)
    ensures var t' := Submit(node, t, Made(maker, txs, src, text).value, bytes, r);
            t'.pending == t.pending && Lookup(t'.finished, h) == Lookup(t.finished, h)
  {
    var tx := Made(maker, txs, src, text).value;
    MadeIsMoot(node, maker, txs, src, text);
    MootMovesNothing(node, t, tx, bytes, r, h);
  }

  // ---- runs of the withdraw tables ---------------------------------------------------------------

  /** The scanner of a side chain enters withdrawals; transactions are submitted; and
      withdrawals that the main chain reports as paid are cleaned up. Where the program
      stops or a statement fails on the way, rows may have left without a verdict, or a
      call of the finished store may have been made for rows that are still pending. */
  datatype Event =
    | Entered(g: Chain, hashes: seq<Hash>)
    | Submitted(tx: Submission, bytes: Bytes, reply: Reply)
    | Reported(g: Chain, hashes: seq<Hash>)
    | OnlyDeleted(g: Chain, hashes: seq<Hash>)
    | OnlyCalled(call: Call)

  function Step(node: Node, t: Tables, ev: Event): Tables {
    match ev
    case Entered(g, hashes) => t.(pending := t.pending + Rows(g, hashes))
    case Submitted(tx, bytes, reply) => Submit(node, t, tx, bytes, reply)
    case Reported(g, hashes) => Clean(t, g, hashes)
    case OnlyDeleted(g, hashes) => t.(pending := t.pending - Rows(g, hashes))
    case OnlyCalled(call) => t.(finished := Apply(t.finished, call))
  }

  function Run(node: Node, evs: seq<Event>): Tables {
    if evs == [] then Tables({}, EMPTY) else Step(node, Run(node, evs[..|evs| - 1]), evs[|evs| - 1])
  }

  predicate Enters(ev: Event, e: Entry) {
    ev.Entered? && ev.g == e.0 && e.1 in ev.hashes
  }

  predicate Drops(ev: Event, e: Entry) {
    ev.OnlyDeleted? && ev.g == e.0 && e.1 in ev.hashes
  }

  /** The row of e leaves the pending table. */
  predicate Removes(node: Node, ev: Event, e: Entry) {
    match ev
    case Entered(_, _) => false
    case Submitted(tx, _, reply) => SettlesAt(node, tx, reply, e.0, e.1)
    case Reported(g, hashes) => g == e.0 && e.1 in hashes
    case OnlyDeleted(g, hashes) => g == e.0 && e.1 in hashes
    case OnlyCalled(_) => false
  }

  predicate Settles(node: Node, ev: Event, h: Hash) {
    match ev
    case Entered(_, _) => false
    case Submitted(tx, _, reply) => SettlesHash(node, tx, reply, h)
    case Reported(_, hashes) => h in hashes
    case OnlyDeleted(_, _) => false
    case OnlyCalled(call) => !call.BytesOnly? && h in call.hashes
  }

  /** What an event that settles a withdrawal says about it: a report that it has been
      paid; a submission that it failed with these bytes, if the answer refuses it, and
      otherwise that it has been paid; a call of the store what the call says. */
  function Says(ev: Event): (bool, Bytes) {
    match ev
    case Entered(_, _) => (true, [])
    case Submitted(_, bytes, reply) => if Refuses(reply, 45010) then (false, bytes) else (true, [])
    case Reported(_, _) => (true, [])
    case OnlyDeleted(_, _) => (true, [])
    case OnlyCalled(call) => if call.Failed? then (false, call.bytes) else (true, [])
  }

  predicate EverEntered(evs: seq<Event>, e: Entry) {
    exists i :: 0 <= i < |evs| && Enters(evs[i], e)
  }

  predicate EverSettled(node: Node, evs: seq<Event>, h: Hash) {
    exists i :: 0 <= i < |evs| && Settles(node, evs[i], h)
  }

  /** Its row was deleted without a verdict and has not been entered since. */
  predicate Dropped(evs: seq<Event>, e: Entry) {
    exists i :: 0 <= i < |evs| && Drops(evs[i], e) && forall j | i < j < |evs| :: !Enters(evs[j], e)
  }

  lemma StepKeeps(node: Node, t: Tables, ev: Event, e: Entry)
    requires RowsExist(t.finished)
    ensures var t', h := Step(node, t, ev), e.1;
            && RowsExist(t'.finished)
            && Lookup(t'.finished, h) == (if Lookup(t.finished, h).Some? then Lookup(t.finished, h)
                                          else if Settles(node, ev, h) then Some(Says(ev)) else None)
            && (e in t'.pending <==> Enters(ev, e) || (e in t.pending && !Removes(node, ev, e)))
  {
    match ev
    case Entered(g, hashes) =>
    case Submitted(tx, bytes, reply) =>
      SettledLookup(node, t, tx, bytes, reply, e.1);
      SubmitMovesIff(node, t, tx, bytes, reply, e.0, e.1);
    case Reported(g, hashes) =>
      ApplyRows(t.finished, Succeeded(hashes));
      ApplyLookup(t.finished, Succeeded(hashes), e.1);
    case OnlyDeleted(g, hashes) =>
    case OnlyCalled(call) =>
      ApplyRows(t.finished, call);
      ApplyLookup(t.finished, call, e.1);
  }

  /** Entered, and not taken out since. */
  predicate Standing(node: Node, evs: seq<Event>, e: Entry) {
    exists i :: 0 <= i < |evs| && Enters(evs[i], e) && forall j | i < j < |evs| :: !Removes(node, evs[j], e)
  }

  lemma StandingSnoc(node: Node, evs: seq<Event>, e: Entry)
    requires evs != []
    ensures var init, last := evs[..|evs| - 1], evs[|evs| - 1];
            Standing(node, evs, e) <==> Enters(last, e) || (Standing(node, init, e) && !Removes(node, last, e))
  {
    var n := |evs| - 1;
    var init, last := evs[..n], evs[n];
    if Standing(node, init, e) && !Removes(node, last, e) {
      var i :| 0 <= i < n && Enters(init[i], e) && forall j | i < j < n :: !Removes(node, init[j], e);
      assert Enters(evs[i], e) && forall j | i < j < n :: init[j] == evs[j];
    }
    if Standing(node, evs, e) && !Enters(last, e) {
      var i :| 0 <= i < |evs| && Enters(evs[i], e) && forall j | i < j < |evs| :: !Removes(node, evs[j], e);
      assert Enters(init[i], e) && forall j | i < j < n :: init[j] == evs[j];
    }
  }

  lemma {:induction false} RunRows(node: Node, evs: seq<Event>)
    ensures RowsExist(Run(node, evs).finished)
  {
    if evs != [] {
      RunRows(node, evs[..|evs| - 1]);
      StepKeeps(node, Run(node, evs[..|evs| - 1]), evs[|evs| - 1], (W.ProgramHash(0, 0), ""));
    }
  }

  /** Over every run, the pending rows are those entered and not taken out since: by a
      report or a verdict that names the chain and the withdrawal, or by a deletion. */
  lemma {:induction false} PendingIff(node: Node, evs: seq<Event>, e: Entry)
    ensures e in Run(node, evs).pending <==> Standing(node, evs, e)
  {
    if evs != [] {
      var init := evs[..|evs| - 1];
      PendingIff(node, init, e);
      RunRows(node, init);
      StepKeeps(node, Run(node, init), evs[|evs| - 1], e);
      StandingSnoc(node, evs, e);
    }
  }

  /** Event i is the first that settles h. */
  predicate FirstSettles(node: Node, evs: seq<Event>, i: int, h: Hash) {
    0 <= i < |evs| && Settles(node, evs[i], h) && forall j | 0 <= j < i :: !Settles(node, evs[j], h)
  }

  /** Over every run, what is recorded about a withdrawal is what the first event that
      settled it says; without such an event nothing is. */
  lemma {:induction false} FirstEventDecides(node: Node, evs: seq<Event>, h: Hash)
    ensures Lookup(Run(node, evs).finished, h).Some? <==> EverSettled(node, evs, h)
    ensures forall i | FirstSettles(node, evs, i, h) :: Lookup(Run(node, evs).finished, h) == Some(Says(evs[i]))
  {
    if evs != [] {
      var n := |evs| - 1;
      var init, last := evs[..n], evs[n];
      FirstEventDecides(node, init, h);
      RunRows(node, init);
      var e := (W.ProgramHash(0, 0), h);
      StepKeeps(node, Run(node, init), last, e);
      HistorySnoc(node, evs, e);
      forall i | FirstSettles(node, evs, i, h) ensures Lookup(Run(node, evs).finished, h) == Some(Says(evs[i])) {
        assert forall j | 0 <= j < n :: init[j] == evs[j];
        if i < n {
          assert FirstSettles(node, init, i, h);
        }
      }
    }
  }

  lemma HistorySnoc(node: Node, evs: seq<Event>, e: Entry)
    requires evs != []
    ensures var init, last := evs[..|evs| - 1], evs[|evs| - 1];
            && (EverEntered(evs, e) <==> EverEntered(init, e) || Enters(last, e))
            && (EverSettled(node, evs, e.1) <==> EverSettled(node, init, e.1) || Settles(node, last, e.1))
            && (Dropped(evs, e) <==> Drops(last, e) || (Dropped(init, e) && !Enters(last, e)))
  {
    var n := |evs| - 1;
    var init, last := evs[..n], evs[n];
    assert evs == init + [last];
    if Dropped(init, e) && !Enters(last, e) {
      var i :| 0 <= i < n && Drops(init[i], e) && forall j | i < j < n :: !Enters(init[j], e);
      assert Drops(evs[i], e) && forall j | i < j < |evs| :: !Enters(evs[j], e);
    }
    if Dropped(evs, e) && !Drops(last, e) {
      var i :| 0 <= i < |evs| && Drops(evs[i], e) && forall j | i < j < |evs| :: !Enters(evs[j], e);
      assert Drops(init[i], e) && forall j | i < j < n :: init[j] == evs[j];
    }
  }

  lemma {:induction false} Fate(node: Node, evs: seq<Event>, e: Entry)
    ensures Lookup(Run(node, evs).finished, e.1).Some? <==> EverSettled(node, evs, e.1)
    ensures !EverSettled(node, evs, e.1) ==> (e in Run(node, evs).pending <==> EverEntered(evs, e) && !Dropped(evs, e))
  {
    if evs != [] {
      var init, last := evs[..|evs| - 1], evs[|evs| - 1];
      Fate(node, init, e);
      RunRows(node, init);
      StepKeeps(node, Run(node, init), last, e);
      HistorySnoc(node, evs, e);
      OnlyVerdictsRemove(node, last, e);
    }
  }

  lemma OnlyVerdictsRemove(node: Node, ev: Event, e: Entry)
    ensures Removes(node, ev, e) ==> Settles(node, ev, e.1) || Drops(ev, e)
    ensures Drops(ev, e) ==> Removes(node, ev, e)
  {
  }

  /** Conservation: over every run, a withdrawal that was ever entered is pending or has
      a verdict, unless its row was deleted without one, it never got one, and it has not
      been entered since; then it is lost. */
  lemma WithdrawalsAreConserved(node: Node, evs: seq<Event>, e: Entry)
    requires EverEntered(evs, e)
    ensures e in Run(node, evs).pending || Lookup(Run(node, evs).finished, e.1).Some? <==>
              EverSettled(node, evs, e.1) || !Dropped(evs, e)
    ensures (forall i | 0 <= i < |evs| :: !Drops(evs[i], e)) ==>
              e in Run(node, evs).pending || Lookup(Run(node, evs).finished, e.1).Some?
  {
    Fate(node, evs, e);
  }

  /** The main chain reports h as paid, or the finished store was called for it alone. */
  predicate ReportsPaid(ev: Event, h: Hash) {
    (ev.Reported? && h in ev.hashes) || (ev.OnlyCalled? && !ev.call.BytesOnly? && h in ev.call.hashes)
  }

  /** Over every run that submits only what the builders made (MadeIsMoot), withdrawals
      get their verdict from reports of the main chain and from nothing else: without
      one, a withdrawal stays pending however often it is submitted. */
  lemma OnlyReportsSettle(node: Node, evs: seq<Event>, e: Entry)
    requires forall i | 0 <= i < |evs| && evs[i].Submitted? :: Moot(node, evs[i].tx)
    ensures Lookup(Run(node, evs).finished, e.1).Some? <==> exists i :: 0 <= i < |evs| && ReportsPaid(evs[i], e.1)
    ensures !(exists i :: 0 <= i < |evs| && ReportsPaid(evs[i], e.1)) ==>
              (e in Run(node, evs).pending <==> EverEntered(evs, e) && !Dropped(evs, e))
  {
    Fate(node, evs, e);
    forall i | 0 <= i < |evs| ensures Settles(node, evs[i], e.1) <==> ReportsPaid(evs[i], e.1) {
      if evs[i].Submitted? {
        assert Moot(node, evs[i].tx);
        SettlesFound(node, evs[i].tx, evs[i].reply, e.1);
      }
    }
  }

  // ---- the code ---------------------------------------------------------------------------------

  class Submitter {
    var pending: set<Entry>
    const store: Store
    const node: Node

    ghost function Abs(): Tables
      reads this, store
    {
      Tables(pending, store.Abs())
    }

    constructor (s: Store, n: Node)
      ensures store == s && node == n && pending == {}
    {
      pending, store, node := {}, s, n;
    }

    method FindStore(tx: Submission) returns (r: Located)
      ensures r == Locate(node, tx)
    {
      if tx.payload.version.V0? {
        if tx.payload.genesis.None? || tx.payload.genesis.value !in node.stores {
          return Fails;
        }
        return Found(tx.payload.genesis.value);
      }
      var chain: Option<Chain> := None;
      for i := 0 to |tx.outputs|
        invariant chain == Checker.ChainOf(tx.outputs[..i])
        invariant chain.Some? ==> chain.value in node.chains && Checker.OneChain(tx.outputs[..i], chain.value)
        invariant chain.None? ==> forall j | 0 <= j < i :: !tx.outputs[j].kind.Withdraw?
      {
        assert tx.outputs[..i + 1][..i] == tx.outputs[..i];
        if !tx.outputs[i].kind.Withdraw? {
          continue;
        }
        Checker.FirstChain(tx.outputs, i);
        if chain.None? {
          if tx.outputs[i].kind.genesis !in node.chains {
            return Fails;
          }
          chain := Some(tx.outputs[i].kind.genesis);
        } else if chain.value != tx.outputs[i].kind.genesis {
          return Fails;
        }
      }
      assert tx.outputs[..|tx.outputs|] == tx.outputs;
      if chain.None? {
        return Crashes;
      }
      r := if chain.value in node.stores then Found(chain.value) else Fails;
    }

    method RemoveSideChainTxs(g: Chain, hashes: seq<Hash>)
      modifies this`pending
      ensures pending == old(pending) - Rows(g, hashes)
    {
      for i := 0 to |hashes|
        invariant pending == old(pending) - Rows(g, hashes[..i])
      {
        pending := pending - {(g, hashes[i])};
        RowsSnoc(g, hashes, i);
      }
      assert hashes[..|hashes|] == hashes;
    }

    method SubmitWithdrawTransaction(tx: Submission, bytes: Bytes, reply: Reply) returns (found: Located)
      modifies this`pending, store
      ensures found == Locate(node, tx)
      ensures Abs() == Submit(node, old(Abs()), tx, bytes, reply)
    {
      found := FindStore(tx);
      if !found.Found? {
        return;
      }
      if reply.CallFailed? || (reply.code.Some? && reply.code.value != DOUBLE_SPEND) {
        RemoveSideChainTxs(found.genesis, tx.payload.hashes);
        store.AddFailedWithdrawTxs(tx.payload.hashes, bytes);
      } else if (reply.code.None? && reply.result) || (reply.code.Some? && reply.code.value == SIDECHAIN_TX_DUPLICATE) {
        RemoveSideChainTxs(found.genesis, tx.payload.hashes);
        store.AddSucceedWithdrawTxs(tx.payload.hashes);
      }
    }

    /** The withdrawals of a side chain that the main chain reports as paid. */
    method CleanUp(g: Chain, received: seq<Hash>)
      modifies this`pending, store
      ensures Abs() == Clean(old(Abs()), g, received)
    {
      RemoveSideChainTxs(g, received);
      store.AddSucceedWithdrawTxs(received);
    }
  }

  lemma RowsSnoc(g: Chain, hashes: seq<Hash>, i: nat)
    requires i < |hashes|
    ensures Rows(g, hashes[..i + 1]) == Rows(g, hashes[..i]) + {(g, hashes[i])}
  {
    assert hashes[..i + 1] == hashes[..i] + [hashes[i]];
  }
}
