/** How the answers of a node settle what was sent to it: the classification of an
    answer, and deposits sent to a side chain. What is settled moves from a pending table
    to the finished store. */
module Settlement {
  import opened FinishedStore
  import opened Options

  // ---- reading an answer ------------------------------------------------------------------

  /** The call fails, or there is an error code or not, and a result or not. */
  datatype Reply = CallFailed | Replied(code: Option<int>, result: bool)

  datatype Verdict = Refused | Accepted | SendAgain

  const INVALID_MAINCHAIN_TX := 45022      // from a side chain
  const MAINCHAIN_TX_DUPLICATE := 45013
  const DOUBLE_SPEND := 45010              // from the main chain
  const SIDECHAIN_TX_DUPLICATE := 45012

  /** The branches in the order the code takes them: the first tests for any error
      but one, the second for success or a duplicate. */
  function Classify(r: Reply, retry: int, duplicate: int): Verdict {
    if r.CallFailed? || (r.code.Some? && r.code.value != retry) then Refused
    else if (r.code.None? && r.result) || (r.code.Some? && r.code.value == duplicate) then Accepted
    else SendAgain
  }

  /** The call failed, or there is an error code other than this one. */
  predicate Refuses(r: Reply, except: int) {
    r.CallFailed? || (r.code.Some? && r.code.value != except)
  }

  /** No error code, and a result. */
  predicate Takes(r: Reply) {
    r.Replied? && r.code.None? && r.result
  }

  /** An answer that says the transaction is already there is taken for a refusal, and
      the test for it decides nothing, as long as the two codes differ. */
  lemma DuplicatesAreRefused(r: Reply, retry: int, duplicate: int)
    requires retry != duplicate
    ensures r.Replied? && r.code == Some(duplicate) ==> Classify(r, retry, duplicate).Refused?
    ensures Classify(r, retry, duplicate).Refused? <==> Refuses(r, retry)
    ensures Classify(r, retry, duplicate).Accepted? <==> Takes(r)
    ensures Classify(r, retry, duplicate).SendAgain? <==>
              r.Replied? && (if r.code.Some? then r.code.value == retry else !r.result)
  {
  }

  // ---- moving deposits ----------------------------------------------------------------------

  datatype Deposits = Deposits(pending: set<Deposit>, finished: map<Deposit, bool>)

  /** RemoveMainChainTxs and then AddFailed/AddSucceedDepositTxs, for a whole list. */
  function Move(st: Deposits, ds: seq<Deposit>, succeed: bool): Deposits {
    Deposits(st.pending - (set d | d in ds), InsertDeposits(st.finished, ds, succeed))
  }

  /** SendDepositTransactions moves the whole list once for each of its elements. */
  function MoveRepeatedly(st: Deposits, ds: seq<Deposit>, succeed: bool, times: nat): Deposits {
    if times == 0 then st else Move(MoveRepeatedly(st, ds, succeed, times - 1), ds, succeed)
  }

  lemma MoveTwice(st: Deposits, ds: seq<Deposit>, succeed: bool)
    ensures Move(Move(st, ds, succeed), ds, succeed) == Move(st, ds, succeed)
  {
    var once := InsertDeposits(st.finished, ds, succeed);
    var twice := InsertDeposits(once, ds, succeed);
    forall d ensures (d in twice <==> d in once) && (d in once ==> twice[d] == once[d]) {
      InsertedDeposits(st.finished, ds, succeed, d);
      InsertedDeposits(once, ds, succeed, d);
    }
    assert twice == once;
  }

  /** Moving the list once for each element is moving it once. */
  lemma {:induction false} RepetitionIsHarmless(st: Deposits, ds: seq<Deposit>, succeed: bool, times: nat)
    requires times >= 1
    ensures MoveRepeatedly(st, ds, succeed, times) == Move(st, ds, succeed)
  {
    if times > 1 {
      RepetitionIsHarmless(st, ds, succeed, times - 1);
      MoveTwice(st, ds, succeed);
    } else {
      assert MoveRepeatedly(st, ds, succeed, 0) == st;
    }
  }

  function WithVerdict(ds: seq<Deposit>, replies: seq<Reply>, v: Verdict): seq<Deposit>
    requires |ds| == |replies|
  {
    if ds == [] then []
    else
      var n := |ds| - 1;
      WithVerdict(ds[..n], replies[..n], v)
        + if Classify(replies[n], INVALID_MAINCHAIN_TX, MAINCHAIN_TX_DUPLICATE) == v then [ds[n]] else []
  }

  function Send(st: Deposits, ds: seq<Deposit>, replies: seq<Reply>): Deposits
    requires |ds| == |replies|
  {
    var failed, succeeded := WithVerdict(ds, replies, Refused), WithVerdict(ds, replies, Accepted);
    MoveRepeatedly(MoveRepeatedly(st, failed, false, |failed|), succeeded, true, |succeeded|)
  }

  /** Some answer for d was classified as v. */
  predicate Got(ds: seq<Deposit>, replies: seq<Reply>, d: Deposit, v: Verdict)
    requires |ds| == |replies|
  {
    exists i :: 0 <= i < |ds| && ds[i] == d && Classify(replies[i], INVALID_MAINCHAIN_TX, MAINCHAIN_TX_DUPLICATE) == v
  }

  lemma {:induction false} WithVerdictIs(ds: seq<Deposit>, replies: seq<Reply>, d: Deposit, v: Verdict)
    requires |ds| == |replies|
    ensures d in WithVerdict(ds, replies, v) <==> Got(ds, replies, d, v)
  {
    if ds != [] {
      var n := |ds| - 1;
      WithVerdictIs(ds[..n], replies[..n], d, v);
      if Got(ds[..n], replies[..n], d, v) {
        var i :| 0 <= i < n && ds[..n][i] == d
                 && Classify(replies[..n][i], INVALID_MAINCHAIN_TX, MAINCHAIN_TX_DUPLICATE) == v;
        assert ds[i] == d && replies[i] == replies[..n][i];
      }
      if Got(ds, replies, d, v) {
        var i :| 0 <= i < |ds| && ds[i] == d && Classify(replies[i], INVALID_MAINCHAIN_TX, MAINCHAIN_TX_DUPLICATE) == v;
        assert i < n ==> ds[..n][i] == d && replies[..n][i] == replies[i];
      }
    }
  }

  lemma MovedAll(st: Deposits, ds: seq<Deposit>, succeed: bool, d: Deposit)
    ensures var st' := MoveRepeatedly(st, ds, succeed, |ds|);
            && (d in st'.pending <==> d in st.pending && d !in ds)
            && (d in st'.finished <==> d in st.finished || d in ds)
            && (d in st'.finished ==> st'.finished[d] == if d in st.finished then st.finished[d] else succeed)
  {
    if |ds| >= 1 {
      RepetitionIsHarmless(st, ds, succeed, |ds|);
      InsertedDeposits(st.finished, ds, succeed, d);
    } else {
      assert MoveRepeatedly(st, ds, succeed, 0) == st;
    }
  }

  /** Some answer for d refused it: the call failed, or the error was not that the
      side chain does not know the main-chain block yet. */
  predicate RefusedOnce(ds: seq<Deposit>, replies: seq<Reply>, d: Deposit)
    requires |ds| == |replies|
  {
    exists i :: 0 <= i < |ds| && ds[i] == d && Refuses(replies[i], 45022)
  }

  predicate TakenOnce(ds: seq<Deposit>, replies: seq<Reply>, d: Deposit)
    requires |ds| == |replies|
  {
    exists i :: 0 <= i < |ds| && ds[i] == d && Takes(replies[i])
  }

  lemma GotIs(ds: seq<Deposit>, replies: seq<Reply>, d: Deposit)
    requires |ds| == |replies|
    ensures Got(ds, replies, d, Refused) <==> RefusedOnce(ds, replies, d)
    ensures Got(ds, replies, d, Accepted) <==> TakenOnce(ds, replies, d)
  {
    forall i | 0 <= i < |ds|
      ensures Classify(replies[i], INVALID_MAINCHAIN_TX, MAINCHAIN_TX_DUPLICATE).Refused? <==> Refuses(replies[i], 45022)
      ensures Classify(replies[i], INVALID_MAINCHAIN_TX, MAINCHAIN_TX_DUPLICATE).Accepted? <==> Takes(replies[i]) {
      DuplicatesAreRefused(replies[i], INVALID_MAINCHAIN_TX, MAINCHAIN_TX_DUPLICATE);
    }
  }

  /** What a round of sending does to each deposit: it stays pending exactly if every
      answer asked for another try; otherwise it is finished, under the verdict
      recorded before, or as failed if some answer refused it. */
  lemma SendSettles(st: Deposits, ds: seq<Deposit>, replies: seq<Reply>, d: Deposit)
    requires |ds| == |replies|
    ensures var st' := Send(st, ds, replies);
            var refused, taken := RefusedOnce(ds, replies, d), TakenOnce(ds, replies, d);
            && (d in st'.pending <==> d in st.pending && !refused && !taken)
            && (d in st'.finished <==> d in st.finished || refused || taken)
            && (d in st'.finished ==> st'.finished[d] == if d in st.finished then st.finished[d] else !refused)
  {
    var failed, succeeded := WithVerdict(ds, replies, Refused), WithVerdict(ds, replies, Accepted);
    GotIs(ds, replies, d);
    WithVerdictIs(ds, replies, d, Refused);
    WithVerdictIs(ds, replies, d, Accepted);
    MovedAll(st, failed, false, d);
    MovedAll(MoveRepeatedly(st, failed, false, |failed|), succeeded, true, d);
  }

  // ---- runs ---------------------------------------------------------------------------------

  /** The listener inserts deposits; pending ones are sent; and those that the side
      chain reports as present are cleaned up, whatever it reports. Where a statement
      fails or the program stops on the way, rows may have left the pending table
      without a verdict, or have a verdict and still be pending. */
  datatype Event =
    | Inserted(ds: seq<Deposit>)
    | Sent(ds: seq<Deposit>, replies: seq<Reply>)
    | CleanedUp(received: seq<Deposit>)
    | OnlyRemoved(ds: seq<Deposit>)
    | OnlyRecorded(ds: seq<Deposit>, succeed: bool)

  function Step(st: Deposits, ev: Event): Deposits
    requires ev.Sent? ==> |ev.ds| == |ev.replies|
  {
    match ev
    case Inserted(ds) => st.(pending := st.pending + (set d | d in ds))
    case Sent(ds, replies) => Send(st, ds, replies)
    case CleanedUp(received) => Move(st, received, true)
    case OnlyRemoved(ds) => st.(pending := st.pending - (set d | d in ds))
    case OnlyRecorded(ds, succeed) => st.(finished := InsertDeposits(st.finished, ds, succeed))
  }

  predicate ValidRun(evs: seq<Event>) {
    forall i | 0 <= i < |evs| :: evs[i].Sent? ==> |evs[i].ds| == |evs[i].replies|
  }

  function Run(evs: seq<Event>): Deposits
    requires ValidRun(evs)
  {
    if evs == [] then Deposits({}, map[]) else Step(Run(evs[..|evs| - 1]), evs[|evs| - 1])
  }

  predicate Enters(ev: Event, d: Deposit) {
    ev.Inserted? && d in ev.ds
  }

  predicate Drops(ev: Event, d: Deposit) {
    ev.OnlyRemoved? && d in ev.ds
  }

  predicate Records(ev: Event, d: Deposit)
    requires ev.Sent? ==> |ev.ds| == |ev.replies|
  {
    match ev
    case Inserted(_) => false
    case Sent(ds, replies) => RefusedOnce(ds, replies, d) || TakenOnce(ds, replies, d)
    case CleanedUp(received) => d in received
    case OnlyRemoved(_) => false
    case OnlyRecorded(ds, _) => d in ds
  }

  /** What an event that records a deposit says about it. */
  predicate Says(ev: Event, d: Deposit)
    requires ev.Sent? ==> |ev.ds| == |ev.replies|
  {
    match ev
    case Sent(ds, replies) => !RefusedOnce(ds, replies, d)
    case OnlyRecorded(_, succeed) => succeed
    case _ => true
  }

  /** Its row leaves the pending table. */
  predicate Removes(ev: Event, d: Deposit)
    requires ev.Sent? ==> |ev.ds| == |ev.replies|
  {
    match ev
    case Inserted(_) => false
    case Sent(ds, replies) => RefusedOnce(ds, replies, d) || TakenOnce(ds, replies, d)
    case CleanedUp(received) => d in received
    case OnlyRemoved(ds) => d in ds
    case OnlyRecorded(_, _) => false
  }

  predicate EverInserted(evs: seq<Event>, d: Deposit) {
    exists i :: 0 <= i < |evs| && Enters(evs[i], d)
  }

  predicate EverRecorded(evs: seq<Event>, d: Deposit)
    requires ValidRun(evs)
  {
    exists i :: 0 <= i < |evs| && Records(evs[i], d)
  }

  /** It was removed without a verdict and has not been inserted since. */
  predicate Dropped(evs: seq<Event>, d: Deposit) {
    exists i :: 0 <= i < |evs| && Drops(evs[i], d) && forall j | i < j < |evs| :: !Enters(evs[j], d)
  }

  lemma StepKeeps(st: Deposits, ev: Event, d: Deposit)
    requires ev.Sent? ==> |ev.ds| == |ev.replies|
    ensures d in Step(st, ev).finished <==> d in st.finished || Records(ev, d)
    ensures d in Step(st, ev).finished ==>
              Step(st, ev).finished[d] == if d in st.finished then st.finished[d] else Says(ev, d)
    ensures d in Step(st, ev).pending <==> Enters(ev, d) || (d in st.pending && !Removes(ev, d))
  {
    match ev
    case Inserted(ds) =>
    case Sent(ds, replies) => SendSettles(st, ds, replies, d);
    case CleanedUp(received) => InsertedDeposits(st.finished, received, true, d);
    case OnlyRemoved(ds) =>
    case OnlyRecorded(ds, succeed) => InsertedDeposits(st.finished, ds, succeed, d);
  }

  lemma HistorySnoc(evs: seq<Event>, d: Deposit)
    requires ValidRun(evs) && evs != []
    ensures var init, last := evs[..|evs| - 1], evs[|evs| - 1];
            && (EverInserted(evs, d) <==> EverInserted(init, d) || Enters(last, d))
            && (EverRecorded(evs, d) <==> EverRecorded(init, d) || Records(last, d))
            && (Dropped(evs, d) <==> Drops(last, d) || (Dropped(init, d) && !Enters(last, d)))
  {
    var n := |evs| - 1;
    var init, last := evs[..n], evs[n];
    assert evs == init + [last];
    if Dropped(init, d) && !Enters(last, d) {
      var i :| 0 <= i < n && Drops(init[i], d) && forall j | i < j < n :: !Enters(init[j], d);
      assert Drops(evs[i], d) && forall j | i < j < |evs| :: !Enters(evs[j], d);
    }
    if Dropped(evs, d) && !Drops(last, d) {
      var i :| 0 <= i < |evs| && Drops(evs[i], d) && forall j | i < j < |evs| :: !Enters(evs[j], d);
      assert Drops(init[i], d) && forall j | i < j < n :: init[j] == evs[j];
    }
  }

  /** Inserted, and not taken out since. */
  predicate Standing(evs: seq<Event>, d: Deposit)
    requires ValidRun(evs)
  {
    exists i :: 0 <= i < |evs| && Enters(evs[i], d) && forall j | i < j < |evs| :: !Removes(evs[j], d)
  }

  lemma StandingSnoc(evs: seq<Event>, d: Deposit)
    requires ValidRun(evs) && evs != []
    ensures var init, last := evs[..|evs| - 1], evs[|evs| - 1];
            Standing(evs, d) <==> Enters(last, d) || (Standing(init, d) && !Removes(last, d))
  {
    var n := |evs| - 1;
    var init, last := evs[..n], evs[n];
    assert forall j | 0 <= j < n :: init[j] == evs[j];
    if Standing(init, d) && !Removes(last, d) {
      var i :| 0 <= i < n && Enters(init[i], d) && forall j | i < j < n :: !Removes(init[j], d);
      assert Enters(evs[i], d);
    }
    if Standing(evs, d) && !Enters(last, d) {
      var i :| 0 <= i < |evs| && Enters(evs[i], d) && forall j | i < j < |evs| :: !Removes(evs[j], d);
      assert Enters(init[i], d);
    }
  }

  /** Over every run, the pending deposits are those inserted and not taken out since:
      by a verdict of the side chain, by its report, or by a removal. */
  lemma {:induction false} PendingIff(evs: seq<Event>, d: Deposit)
    requires ValidRun(evs)
    ensures d in Run(evs).pending <==> Standing(evs, d)
  {
    if evs != [] {
      var init := evs[..|evs| - 1];
      PendingIff(init, d);
      StepKeeps(Run(init), evs[|evs| - 1], d);
      StandingSnoc(evs, d);
    }
  }

  /** Event i is the first that records d. */
  predicate FirstRecords(evs: seq<Event>, i: int, d: Deposit)
    requires ValidRun(evs)
  {
    0 <= i < |evs| && Records(evs[i], d) && forall j | 0 <= j < i :: !Records(evs[j], d)
  }

  /** Over every run, a deposit is finished under what the first event that recorded it
      says; without such an event it is not finished. */
  lemma {:induction false} FirstEventDecides(evs: seq<Event>, d: Deposit)
    requires ValidRun(evs)
    ensures d in Run(evs).finished <==> EverRecorded(evs, d)
    ensures forall i | FirstRecords(evs, i, d) :: d in Run(evs).finished && Run(evs).finished[d] == Says(evs[i], d)
  {
    if evs != [] {
      var n := |evs| - 1;
      var init, last := evs[..n], evs[n];
      FirstEventDecides(init, d);
      StepKeeps(Run(init), last, d);
      HistorySnoc(evs, d);
      forall i | FirstRecords(evs, i, d) ensures d in Run(evs).finished && Run(evs).finished[d] == Says(evs[i], d) {
        assert forall j | 0 <= j < n :: init[j] == evs[j];
        if i < n {
          assert FirstRecords(init, i, d);
        }
      }
    }
  }

  lemma {:induction false} Fate(evs: seq<Event>, d: Deposit)
    requires ValidRun(evs)
    ensures d in Run(evs).finished <==> EverRecorded(evs, d)
    ensures !EverRecorded(evs, d) ==> (d in Run(evs).pending <==> EverInserted(evs, d) && !Dropped(evs, d))
  {
    if evs != [] {
      var init := evs[..|evs| - 1];
      Fate(init, d);
      StepKeeps(Run(init), evs[|evs| - 1], d);
      HistorySnoc(evs, d);
    }
  }

  /** Conservation: over every run, a deposit that was ever inserted is pending or
      finished, unless it was removed without a verdict, never got one, and has not been
      inserted since; then it is lost. So none is lost while every removal is followed
      by its verdict. */
  lemma DepositsAreConserved(evs: seq<Event>, d: Deposit)
    requires ValidRun(evs) && EverInserted(evs, d)
    ensures d in Run(evs).pending || d in Run(evs).finished <==> EverRecorded(evs, d) || !Dropped(evs, d)
    ensures (forall i | 0 <= i < |evs| :: !Drops(evs[i], d)) ==> d in Run(evs).pending || d in Run(evs).finished
  {
    Fate(evs, d);
  }

  /** And once it is finished, its verdict stands for the rest of the run. */
  lemma {:induction false} VerdictStands(evs: seq<Event>, more: seq<Event>, d: Deposit)
    requires ValidRun(evs) && ValidRun(evs + more) && d in Run(evs).finished
    ensures d in Run(evs + more).finished && Run(evs + more).finished[d] == Run(evs).finished[d]
  {
    if more == [] {
      assert evs + more == evs;
    } else {
      var init, last := more[..|more| - 1], more[|more| - 1];
      var before := evs + init;
      assert (evs + more)[..|evs + more| - 1] == before && (evs + more)[|evs + more| - 1] == last;
      assert forall i | 0 <= i < |before| :: before[i] == (evs + more)[i];
      VerdictStands(evs, init, d);
      StepKeeps(Run(before), last, d);
    }
  }

  // ---- the code ---------------------------------------------------------------------------------

  class Sender {
    var pending: set<Deposit>
    const store: Store

    ghost function Abs(): Deposits
      reads this, store
    {
      Deposits(pending, store.deposits)
    }

    constructor (s: Store)
      ensures store == s && pending == {}
    {
      pending, store := {}, s;
    }

    method RemoveMainChainTxs(ds: seq<Deposit>)
      modifies this`pending
      ensures pending == old(pending) - (set d | d in ds)
    {
      for i := 0 to |ds|
        invariant pending == old(pending) - (set d | d in ds[..i])
      {
        pending := pending - {ds[i]};
        assert ds[..i + 1] == ds[..i] + [ds[i]];
      }
      assert ds[..|ds|] == ds;
    }

    method MoveAll(ds: seq<Deposit>, succeed: bool)
      modifies this`pending, store`deposits
      ensures Abs() == MoveRepeatedly(old(Abs()), ds, succeed, |ds|)
    {
      for i := 0 to |ds|
        invariant Abs() == MoveRepeatedly(old(Abs()), ds, succeed, i)
      {
        RemoveMainChainTxs(ds);
        store.AddDepositTxs(ds, succeed);
      }
    }

    method SendDepositTransactions(ds: seq<Deposit>, replies: seq<Reply>)
      requires |ds| == |replies|
      modifies this`pending, store`deposits
      ensures Abs() == Send(old(Abs()), ds, replies)
    {
      var failed: seq<Deposit> := [];
      var succeeded: seq<Deposit> := [];
      for i := 0 to |ds|
        invariant failed == WithVerdict(ds[..i], replies[..i], Refused)
        invariant succeeded == WithVerdict(ds[..i], replies[..i], Accepted)
      {
        assert ds[..i + 1][..i] == ds[..i] && replies[..i + 1][..i] == replies[..i];
        var resp := replies[i];
        if resp.CallFailed? || (resp.code.Some? && resp.code.value != INVALID_MAINCHAIN_TX) {
          failed := failed + [ds[i]];
        } else if (resp.code.None? && resp.result) || (resp.code.Some? && resp.code.value == MAINCHAIN_TX_DUPLICATE) {
          succeeded := succeeded + [ds[i]];
        }
      }
      assert ds[..|ds|] == ds && replies[..|ds|] == replies;
      MoveAll(failed, false);
      MoveAll(succeeded, true);
    }

    /** Drop the deposits that the side chain already has. */
    method CleanUp(received: seq<Deposit>)
      modifies this`pending, store`deposits
      ensures Abs() == Move(old(Abs()), received, true)
    {
      RemoveMainChainTxs(received);
      store.AddDepositTxs(received, true);
    }
  }
}
