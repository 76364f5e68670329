/** Runs of the multi-signature path: proposals, feedback that the network may delay,
    reorder, duplicate or lose, changes of the arbiter list, and Reset at any time. */
module MultisigRuns {
  import opened Lists
  import opened Quorum
  import opened Multisig

  datatype Submission = Submission(body: nat, code: seq<Key>, parameter: seq<Sig>, recorded: set<Key>, dropped: bool)

  datatype System = System(
    st: State,
    subs: seq<Submission>,        // transactions handed to the main chain, with the signers on record
    accepted: multiset<nat>,      // proposals opened
    discarded: multiset<nat>,     // proposals forgotten by Reset
    dropped: set<nat>)            // open proposals that lost signatures by being proposed again

  const START := System(INITIAL, [], multiset{}, multiset{}, {})

  datatype Event =
    | ProposedTx(env: Env, body: nat, code: seq<Key>, same: bool)
    | Delivered(env: Env, f: Feedback)
    | WasReset

  /** An honest sender names itself by key and by program hash. What it signs need
      not be assumed: the handler verifies it. */
  predicate Enabled(me: Key, ev: Event) {
    match ev
    case ProposedTx(env, body, code, same) => env.me == me
    case Delivered(env, f) => env.me == me && f.target == f.pk
    case WasReset => true
  }

  function Step(sys: System, ev: Event): System {
    match ev
    case ProposedTx(env, body, code, same) => DoPropose(env, sys, body, code, same)
    case Delivered(env, f) => DoReceive(env, sys, f)
    case WasReset =>
      sys.(st := INITIAL, discarded := sys.discarded + multiset(sys.st.contents.Keys), dropped := {})
  }

  function DoPropose(env: Env, sys: System, body: nat, code: seq<Key>, same: bool): System {
    var (st, o) := Propose(env, sys.st, body, code, same);
    sys.(st := st,
         accepted := if o.Proposed? then sys.accepted + multiset{body} else sys.accepted,
         dropped := if st != sys.st && body in sys.st.contents then sys.dropped + {body} else sys.dropped)
  }

  function DoReceive(env: Env, sys: System, f: Feedback): System {
    var (st, o) := Receive(env, sys.st, f);
    if o.Submitted? then
      sys.(st := st,
           subs := sys.subs + [Submission(f.body, CodeOf(sys.st, f.body), o.parameter,
                                          SignersOf(sys.st, f.body) + {f.target}, f.body in sys.dropped)],
           dropped := sys.dropped - {f.body})
    else sys.(st := st)
  }

  function CodeOf(st: State, body: nat): seq<Key> {
    if body in st.contents then st.contents[body].code else []
  }

  // ---- safety --------------------------------------------------------------------------

  /** Merged signatures: the proposer's first, then one each of distinct keys of the
      redeem script, all over the transaction without programs, all of them on
      record; the record is ahead exactly when signatures were dropped. */
  ghost predicate WellSigned(me: Key, body: nat, code: seq<Key>, parameter: seq<Sig>, recorded: set<Key>, dropped: bool) {
    && parameter != [] && parameter[0].signer == me
    && (forall i | 0 <= i < |parameter| :: parameter[i].msg == Unsigned(body))
    && (forall i | 1 <= i < |parameter| :: parameter[i].signer in code)
    && Distinct(Makers(parameter))
    && Elements(Makers(parameter)) <= recorded
    && (dropped <==> Elements(Makers(parameter)) != recorded)
  }

  ghost predicate PendingOk(me: Key, sys: System) {
    && sys.st.contents.Keys == sys.st.signers.Keys
    && sys.dropped <= sys.st.contents.Keys
    && forall h | h in sys.st.contents ::
         WellSigned(me, h, sys.st.contents[h].code, sys.st.contents[h].parameter, sys.st.signers[h], h in sys.dropped)
  }

  ghost predicate SubmissionOk(me: Key, s: Submission) {
    WellSigned(me, s.body, s.code, s.parameter, s.recorded, s.dropped) && |s.parameter| >= 2
  }

  ghost predicate SubsOk(me: Key, subs: seq<Submission>) {
    forall i | 0 <= i < |subs| :: SubmissionOk(me, subs[i])
  }

  function Bodies(subs: seq<Submission>): seq<nat> {
    seq(|subs|, i requires 0 <= i < |subs| => subs[i].body)
  }

  /** Every proposal ever opened is open, forgotten or submitted, once. */
  ghost predicate Conserved(sys: System) {
    sys.accepted == multiset(Bodies(sys.subs)) + sys.discarded + multiset(sys.st.contents.Keys)
  }

  ghost predicate Inv(me: Key, sys: System) {
    PendingOk(me, sys) && SubsOk(me, sys.subs) && Conserved(sys)
  }

  lemma FirstSigned(me: Key, body: nat, code: seq<Key>)
    ensures WellSigned(me, body, code, [Sig(me, Unsigned(body))], {me}, false)
  {
    assert Makers([Sig(me, Unsigned(body))]) == [me];
    assert [me][..0] == [];
    assert Elements([me]) == {me};
  }

  lemma MergedSigned(me: Key, body: nat, code: seq<Key>, parameter: seq<Sig>, recorded: set<Key>, dropped: bool, k: Key)
    requires WellSigned(me, body, code, parameter, recorded, dropped) && k in code && k !in recorded
    ensures WellSigned(me, body, code, parameter + [Sig(k, Unsigned(body))], recorded + {k}, dropped)
  {
    var makers := Makers(parameter);
    assert Makers(parameter + [Sig(k, Unsigned(body))]) == makers + [k];
    assert k !in Elements(makers);
    DistinctSnoc(makers, k);
    ElementsSnoc(makers, k);
    assert Elements(makers) + {k} == recorded + {k} <==> Elements(makers) == recorded;
  }

  lemma MultisetInsert(keys: set<nat>, body: nat)
    requires body !in keys
    ensures multiset(keys + {body}) == multiset(keys) + multiset{body}
  {
  }

  ghost predicate Opened(me: Key, sys: System, next: System, body: nat, code: seq<Key>) {
    && body !in sys.st.contents && next.dropped == sys.dropped && next.subs == sys.subs
    && next.accepted == sys.accepted + multiset{body} && next.discarded == sys.discarded
    && next.st == State(sys.st.contents[body := Pending(code, [Sig(me, Unsigned(body))])], sys.st.signers[body := {me}])
  }

  ghost predicate Replaced(me: Key, sys: System, next: System, body: nat) {
    && body in sys.st.contents && next.dropped == sys.dropped + {body} && next.subs == sys.subs
    && next.accepted == sys.accepted && next.discarded == sys.discarded
    && sys.st.contents[body].parameter != [Sig(me, Unsigned(body))]
    && next.st == sys.st.(contents := sys.st.contents[body := sys.st.contents[body].(parameter := [Sig(me, Unsigned(body))])])
  }

  lemma ProposeOutcome(me: Key, env: Env, sys: System, body: nat, code: seq<Key>, same: bool) returns (next: System)
    requires env.me == me
    ensures next == DoPropose(env, sys, body, code, same)
    ensures next == sys || Opened(me, sys, next, body, code) || Replaced(me, sys, next, body)
  {
    next := DoPropose(env, sys, body, code, same);
  }

  lemma ProposeKeeps(me: Key, env: Env, sys: System, body: nat, code: seq<Key>, same: bool)
    requires Inv(me, sys) && env.me == me
    ensures Inv(me, DoPropose(env, sys, body, code, same))
  {
    var next := ProposeOutcome(me, env, sys, body, code, same);
    if Opened(me, sys, next, body, code) {
      OpenedPending(me, sys, next, body, code);
      OpenedConserved(sys, next, body);
    } else if Replaced(me, sys, next, body) {
      ReplacedPending(me, sys, next, body);
      SameConserved(sys, next);
    }
  }

  lemma SameConserved(sys: System, next: System)
    requires Conserved(sys) && next.st.contents.Keys == sys.st.contents.Keys
    requires next.subs == sys.subs && next.accepted == sys.accepted && next.discarded == sys.discarded
    ensures Conserved(next)
  {
  }

  lemma OpenedConserved(sys: System, next: System, body: nat)
    requires Conserved(sys) && body !in sys.st.contents && next.st.contents.Keys == sys.st.contents.Keys + {body}
    requires next.subs == sys.subs && next.accepted == sys.accepted + multiset{body} && next.discarded == sys.discarded
    ensures Conserved(next)
  {
    MultisetInsert(sys.st.contents.Keys, body);
  }

  lemma OpenedPending(me: Key, sys: System, next: System, body: nat, code: seq<Key>)
    requires PendingOk(me, sys) && Opened(me, sys, next, body, code)
    ensures PendingOk(me, next)
  {
    FirstSigned(me, body, code);
  }

  lemma MoreThanFirst(parameter: seq<Sig>, first: Sig)
    requires parameter != [] && parameter[0] == first && parameter != [first]
    ensures |parameter| >= 2
  {
  }

  /** Proposing the pending object again leaves the proposer's signature alone. */
  lemma ProposedAgain(me: Key, sys: System, body: nat)
    requires PendingOk(me, sys) && body in sys.st.contents
    requires sys.st.contents[body].parameter != [Sig(me, Unsigned(body))]
    ensures WellSigned(me, body, sys.st.contents[body].code, [Sig(me, Unsigned(body))], sys.st.signers[body], true)
  {
    var parameter := sys.st.contents[body].parameter;
    FirstSigned(me, body, []);
    assert WellSigned(me, body, sys.st.contents[body].code, parameter, sys.st.signers[body], body in sys.dropped);
    MoreThanFirst(parameter, Sig(me, Unsigned(body)));
    var makers := Makers(parameter);
    assert makers[0] == me && makers[1] in Elements(makers) && me in Elements(makers);
    DistinctTake(makers, 2);
    assert makers[..2] == [makers[0], makers[1]];
    assert makers[..2][..1] == [me];
  }

  lemma ReplacedPending(me: Key, sys: System, next: System, body: nat)
    requires PendingOk(me, sys) && Replaced(me, sys, next, body)
    ensures PendingOk(me, next)
  {
    ProposedAgain(me, sys, body);
  }

  lemma ReceiveKeeps(me: Key, env: Env, sys: System, f: Feedback)
    requires Inv(me, sys) && env.me == me && f.target == f.pk
    ensures Inv(me, DoReceive(env, sys, f))
  {
    var next, taken := ReceiveOutcome(me, env, sys, f);
    if taken {
      TakenKeeps(me, env, sys, next, f);
    }
  }

  lemma TakenKeeps(me: Key, env: Env, sys: System, next: System, f: Feedback)
    requires Inv(me, sys) && Takes(env, sys.st, f) && Taken(env, sys, next, f)
    ensures Inv(me, next)
  {
    if Fires(env, sys.st.contents[f.body].parameter) {
      FiredTaken(me, env, sys, next, f);
    } else {
      MergedTaken(me, env, sys, next, f);
    }
  }

  lemma MergedTaken(me: Key, env: Env, sys: System, next: System, f: Feedback)
    requires Inv(me, sys) && Takes(env, sys.st, f) && Taken(env, sys, next, f)
    requires !Fires(env, sys.st.contents[f.body].parameter)
    ensures Inv(me, next)
  {
    MergedPending(me, env, sys, next, f);
    MergedFrame(env, sys, next, f);
    SameConserved(sys, next);
  }

  lemma MergedFrame(env: Env, sys: System, next: System, f: Feedback)
    requires f.body in sys.st.contents && f.body in sys.st.signers && Taken(env, sys, next, f)
    requires !Fires(env, sys.st.contents[f.body].parameter)
    ensures next.st.contents.Keys == sys.st.contents.Keys && next.subs == sys.subs
    ensures next.accepted == sys.accepted && next.discarded == sys.discarded
  {
  }

  lemma FiredTaken(me: Key, env: Env, sys: System, next: System, f: Feedback)
    requires Inv(me, sys) && Takes(env, sys.st, f) && Taken(env, sys, next, f)
    requires Fires(env, sys.st.contents[f.body].parameter)
    ensures Inv(me, next)
  {
    FiredSub(me, env, sys, next, f);
    FiredKeeps(me, sys, next, f, next.subs[|sys.subs|]);
  }

  lemma FiredSub(me: Key, env: Env, sys: System, next: System, f: Feedback)
    requires PendingOk(me, sys) && Takes(env, sys.st, f) && Taken(env, sys, next, f)
    requires Fires(env, sys.st.contents[f.body].parameter)
    ensures |next.subs| == |sys.subs| + 1 && SubmissionOk(me, next.subs[|sys.subs|])
  {
    var p := sys.st.contents[f.body];
    MergedSigned(me, f.body, p.code, p.parameter, sys.st.signers[f.body], f.body in sys.dropped, f.pk);
  }

  lemma MergedPending(me: Key, env: Env, sys: System, next: System, f: Feedback)
    requires PendingOk(me, sys) && Takes(env, sys.st, f) && Taken(env, sys, next, f)
    requires !Fires(env, sys.st.contents[f.body].parameter)
    ensures PendingOk(me, next)
  {
    var p := sys.st.contents[f.body];
    MergedSigned(me, f.body, p.code, p.parameter, sys.st.signers[f.body], f.body in sys.dropped, f.pk);
  }

  predicate Fires(env: Env, parameter: seq<Sig>) {
    ReportedCount(|parameter| + 1) >= env.needed
  }

  /** The feedback is from a listed sender, properly signed, for an open proposal, by
      a key of its redeem script that is not on record. */
  predicate Takes(env: Env, st: State, f: Feedback) {
    && Genuine(env, f) && f.body in st.contents && f.pk in st.contents[f.body].code
    && f.pk !in SignersOf(st, f.body)
  }

  predicate Genuine(env: Env, f: Feedback) {
    Listed(env.arbiters, f.pk) && |f.scripts| == 2 && f.scripts[1] == Sig(f.pk, Unsigned(f.body))
  }

  ghost predicate Taken(env: Env, sys: System, next: System, f: Feedback)
    requires f.body in sys.st.contents && f.body in sys.st.signers
  {
    var p := sys.st.contents[f.body];
    var parameter, recorded := p.parameter + [Sig(f.pk, Unsigned(f.body))], sys.st.signers[f.body] + {f.pk};
    && next.accepted == sys.accepted && next.discarded == sys.discarded
    && if Fires(env, p.parameter) then
         && next.st == State(sys.st.contents - {f.body}, sys.st.signers - {f.body})
         && next.subs == sys.subs + [Submission(f.body, p.code, parameter, recorded, f.body in sys.dropped)]
         && next.dropped == sys.dropped - {f.body}
       else
         && next.st == State(sys.st.contents[f.body := Pending(p.code, parameter)], sys.st.signers[f.body := recorded])
         && next.subs == sys.subs && next.dropped == sys.dropped
  }

  lemma ReceiveOutcome(me: Key, env: Env, sys: System, f: Feedback) returns (next: System, taken: bool)
    requires PendingOk(me, sys) && env.me == me && f.target == f.pk
    ensures next == DoReceive(env, sys, f) && taken == Takes(env, sys.st, f)
    ensures if taken then Taken(env, sys, next, f) else next == sys
  {
    next := DoReceive(env, sys, f);
    taken := Takes(env, sys.st, f);
    if f.body in sys.st.contents {
      var p := sys.st.contents[f.body];
      assert WellSigned(me, f.body, p.code, p.parameter, sys.st.signers[f.body], f.body in sys.dropped);
      RecheckIsInert(f.body, p, f.target);
    }
  }

  lemma FiredKeeps(me: Key, sys: System, next: System, f: Feedback, sub: Submission)
    requires Inv(me, sys) && f.body in sys.st.contents
    requires next.st == State(sys.st.contents - {f.body}, sys.st.signers - {f.body})
    requires next.accepted == sys.accepted && next.discarded == sys.discarded && next.dropped == sys.dropped - {f.body}
    requires next.subs == sys.subs + [sub] && sub.body == f.body && SubmissionOk(me, sub)
    ensures Inv(me, next)
  {
    FiredPending(me, sys, next, f.body);
    FiredConserved(sys, next, sub);
    SubmissionsSnoc(me, sys.subs, sub);
  }

  lemma FiredPending(me: Key, sys: System, next: System, body: nat)
    requires PendingOk(me, sys) && next.dropped == sys.dropped - {body}
    requires next.st == State(sys.st.contents - {body}, sys.st.signers - {body})
    ensures PendingOk(me, next)
  {
  }

  lemma SubmissionsSnoc(me: Key, subs: seq<Submission>, sub: Submission)
    requires SubsOk(me, subs) && SubmissionOk(me, sub)
    ensures SubsOk(me, subs + [sub])
  {
  }

  lemma FiredConserved(sys: System, next: System, sub: Submission)
    requires Conserved(sys) && next.accepted == sys.accepted && next.discarded == sys.discarded
    requires sub.body in sys.st.contents && next.st.contents == sys.st.contents - {sub.body}
    requires next.subs == sys.subs + [sub]
    ensures Conserved(next)
  {
    assert Bodies(next.subs) == Bodies(sys.subs) + [sub.body];
    assert sys.st.contents.Keys == next.st.contents.Keys + {sub.body};
    MultisetInsert(next.st.contents.Keys, sub.body);
  }

  lemma ResetKeeps(me: Key, sys: System)
    requires Inv(me, sys)
    ensures Inv(me, Step(sys, WasReset))
  {
    assert multiset(INITIAL.contents.Keys) == multiset{};
  }

  lemma StepKeeps(me: Key, sys: System, ev: Event)
    requires Inv(me, sys) && Enabled(me, ev)
    ensures Inv(me, Step(sys, ev))
  {
    match ev
    case ProposedTx(env, body, code, same) => ProposeKeeps(me, env, sys, body, code, same);
    case Delivered(env, f) => ReceiveKeeps(me, env, sys, f);
    case WasReset => ResetKeeps(me, sys);
  }

  predicate ValidRun(me: Key, evs: seq<Event>) {
    forall i | 0 <= i < |evs| :: Enabled(me, evs[i])
  }

  function Run(sys: System, evs: seq<Event>): System
    decreases |evs|
  {
    if evs == [] then sys else Run(Step(sys, evs[0]), evs[1..])
  }

  lemma {:induction false} RunKeeps(me: Key, sys: System, evs: seq<Event>)
    requires Inv(me, sys) && ValidRun(me, evs)
    ensures Inv(me, Run(sys, evs))
    decreases |evs|
  {
    if evs != [] {
      assert Enabled(me, evs[0]) && forall i | 0 <= i < |evs[1..]| :: evs[1..][i] == evs[i + 1];
      StepKeeps(me, sys, evs[0]);
      RunKeeps(me, Step(sys, evs[0]), evs[1..]);
    }
  }

  lemma StartInv(me: Key)
    ensures Inv(me, START)
  {
    assert Bodies([]) == [];
    assert multiset(INITIAL.contents.Keys) == multiset{};
  }

  /** Safety over every run: a submitted transaction carries the proposer's signature
      first and otherwise signatures of distinct keys of its redeem script, all over
      its unsigned form and all on record; the record names nobody else unless the
      pending transaction was proposed again and lost signatures; and a proposal
      once opened is submitted, forgotten by Reset or still open, exactly one of
      them and exactly once. */
  lemma SubmissionsAreSafe(me: Key, evs: seq<Event>, i: nat)
    requires ValidRun(me, evs) && i < |Run(START, evs).subs|
    ensures var sys, sub := Run(START, evs), Run(START, evs).subs[i];
            && |sub.parameter| >= 2 && sub.parameter[0].signer == me && Distinct(Makers(sub.parameter))
            && (forall j | 0 <= j < |sub.parameter| ::
                  && sub.parameter[j].msg == Unsigned(sub.body)
                  && (j > 0 ==> sub.parameter[j].signer in sub.code))
            && (if sub.dropped then Elements(Makers(sub.parameter)) < sub.recorded
                else Elements(Makers(sub.parameter)) == sub.recorded)
            && sys.accepted == multiset(Bodies(sys.subs)) + sys.discarded + multiset(sys.st.contents.Keys)
  {
    StartInv(me);
    RunKeeps(me, START, evs);
    assert SubmissionOk(me, Run(START, evs).subs[i]);
  }

  /** No transaction object is handed in while it is pending. The callers build a new
      one for every proposal. */
  predicate FreshObjects(evs: seq<Event>) {
    forall i | 0 <= i < |evs| && evs[i].ProposedTx? :: !evs[i].same
  }

  ghost predicate NothingDropped(sys: System) {
    sys.dropped == {} && forall i | 0 <= i < |sys.subs| :: !sys.subs[i].dropped
  }

  lemma StepDropsNothing(me: Key, sys: System, ev: Event)
    requires Inv(me, sys) && Enabled(me, ev) && NothingDropped(sys) && (ev.ProposedTx? ==> !ev.same)
    ensures NothingDropped(Step(sys, ev))
  {
    match ev
    case ProposedTx(env, body, code, same) => ProposeDropsNothing(env, sys, body, code);
    case Delivered(env, f) => ReceiveDropsNothing(me, env, sys, f);
    case WasReset =>
  }

  lemma ProposeDropsNothing(env: Env, sys: System, body: nat, code: seq<Key>)
    requires NothingDropped(sys)
    ensures NothingDropped(DoPropose(env, sys, body, code, false))
  {
  }

  lemma ReceiveDropsNothing(me: Key, env: Env, sys: System, f: Feedback)
    requires PendingOk(me, sys) && env.me == me && f.target == f.pk && NothingDropped(sys)
    ensures NothingDropped(DoReceive(env, sys, f))
  {
    var next, taken := ReceiveOutcome(me, env, sys, f);
  }

  lemma {:induction false} RunDropsNothing(me: Key, sys: System, evs: seq<Event>)
    requires Inv(me, sys) && ValidRun(me, evs) && FreshObjects(evs) && NothingDropped(sys)
    ensures NothingDropped(Run(sys, evs))
    decreases |evs|
  {
    if evs != [] {
      assert Enabled(me, evs[0]) && forall i | 0 <= i < |evs[1..]| :: evs[1..][i] == evs[i + 1];
      StepKeeps(me, sys, evs[0]);
      StepDropsNothing(me, sys, evs[0]);
      RunDropsNothing(me, Step(sys, evs[0]), evs[1..]);
    }
  }

  /** Over the runs that the callers produce, a submitted transaction carries a
      signature of everybody on record and of nobody else. */
  lemma SubmissionsMatchTheRecord(me: Key, evs: seq<Event>, i: nat)
    requires ValidRun(me, evs) && FreshObjects(evs) && i < |Run(START, evs).subs|
    ensures var sub := Run(START, evs).subs[i];
            Elements(Makers(sub.parameter)) == sub.recorded && |sub.recorded| == |sub.parameter|
  {
    StartInv(me);
    RunDropsNothing(me, START, evs);
    SubmissionsAreSafe(me, evs, i);
    DistinctCardinality(Makers(Run(START, evs).subs[i].parameter));
  }

  // ---- how many signatures a submission carries ---------------------------------------

  predicate NeedsAlways(evs: seq<Event>, needed: int) {
    forall i | 0 <= i < |evs| && evs[i].Delivered? :: evs[i].env.needed == needed
  }

  ghost predicate Counted(sys: System, needed: int) {
    && (forall h | h in sys.st.contents :: |sys.st.contents[h].parameter| < SubmittedAt(needed))
    && (forall i | 0 <= i < |sys.subs| :: |sys.subs[i].parameter| == SubmittedAt(needed))
  }

  lemma FiresAt(env: Env, parameter: seq<Sig>)
    requires 1 <= |parameter| < SubmittedAt(env.needed)
    ensures Fires(env, parameter) <==> |parameter| + 1 == SubmittedAt(env.needed)
  {
    CountsOneTooMany(|parameter| + 1, env.needed);
  }

  lemma ReceiveCounted(me: Key, env: Env, sys: System, f: Feedback)
    requires PendingOk(me, sys) && env.me == me && f.target == f.pk && Counted(sys, env.needed)
    ensures Counted(DoReceive(env, sys, f), env.needed)
  {
    var next, taken := ReceiveOutcome(me, env, sys, f);
    if taken {
      var p := sys.st.contents[f.body];
      assert WellSigned(me, f.body, p.code, p.parameter, sys.st.signers[f.body], f.body in sys.dropped);
      FiresAt(env, p.parameter);
    }
  }

  lemma ProposeCounted(me: Key, env: Env, sys: System, body: nat, code: seq<Key>, same: bool, needed: int)
    requires env.me == me && Counted(sys, needed)
    ensures Counted(DoPropose(env, sys, body, code, same), needed)
  {
    var next := ProposeOutcome(me, env, sys, body, code, same);
  }

  lemma {:induction false} RunCounted(me: Key, sys: System, evs: seq<Event>, needed: int)
    requires Inv(me, sys) && ValidRun(me, evs) && NeedsAlways(evs, needed) && Counted(sys, needed)
    ensures Counted(Run(sys, evs), needed)
    decreases |evs|
  {
    if evs != [] {
      var ev := evs[0];
      assert Enabled(me, ev) && forall i | 0 <= i < |evs[1..]| :: evs[1..][i] == evs[i + 1];
      StepKeeps(me, sys, ev);
      StepCounted(me, sys, ev, needed);
      RunCounted(me, Step(sys, ev), evs[1..], needed);
    }
  }

  lemma StepCounted(me: Key, sys: System, ev: Event, needed: int)
    requires Inv(me, sys) && Enabled(me, ev) && Counted(sys, needed)
    requires ev.Delivered? ==> ev.env.needed == needed
    ensures Counted(Step(sys, ev), needed)
  {
    match ev
    case ProposedTx(env, body, code, same) => ProposeCounted(me, env, sys, body, code, same, needed);
    case Delivered(env, f) => ReceiveCounted(me, env, sys, f);
    case WasReset =>
  }

  /** While the required number does not change, every submission carries exactly
      the number of signatures at which the length-based count first reaches it:
      the required number itself for 2 to 64, one less for every 65 above. */
  lemma SubmittedWithExactly(me: Key, evs: seq<Event>, needed: int, i: nat)
    requires ValidRun(me, evs) && NeedsAlways(evs, needed) && i < |Run(START, evs).subs|
    ensures |Run(START, evs).subs[i].parameter| == SubmittedAt(needed)
    ensures 2 <= needed <= 64 ==> |Run(START, evs).subs[i].parameter| == needed
    ensures needed > 64 ==> |Run(START, evs).subs[i].parameter| < needed
  {
    StartInv(me);
    RunCounted(me, START, evs, needed);
  }

  // ---- confluence -----------------------------------------------------------------------

  /** Who sent genuine feedback for a proposal, as a signer of its redeem script. */
  function Senders(evs: seq<Event>, h: nat, code: seq<Key>): set<Key> {
    if evs == [] then {} else SenderOf(evs[0], h, code) + Senders(evs[1..], h, code)
  }

  function SenderOf(ev: Event, h: nat, code: seq<Key>): set<Key> {
    if ev.Delivered? && ev.f.body == h && Genuine(ev.env, ev.f) && ev.f.pk in code then {ev.f.pk} else {}
  }

  /** Nothing but feedback happens to h. */
  predicate OnlyFeedback(evs: seq<Event>, h: nat) {
    forall i | 0 <= i < |evs| :: !evs[i].WasReset? && (evs[i].ProposedTx? ==> evs[i].body != h)
  }

  function TimesSubmitted(sys: System, h: nat): nat {
    multiset(Bodies(sys.subs))[h]
  }

  /** h is open, `makers` have signed it and `recorded` are on record. */
  ghost predicate Collecting(sys: System, h: nat, code: seq<Key>, makers: set<Key>, recorded: set<Key>) {
    && h in sys.st.contents && h in sys.st.signers
    && sys.st.contents[h].code == code && sys.st.signers[h] == recorded
    && Elements(Makers(sys.st.contents[h].parameter)) == makers
  }

  lemma CollectingSize(me: Key, sys: System, h: nat, code: seq<Key>, makers: set<Key>, recorded: set<Key>)
    requires PendingOk(me, sys) && Collecting(sys, h, code, makers, recorded)
    ensures 1 <= |sys.st.contents[h].parameter| == |makers| && makers <= recorded
  {
    var p := sys.st.contents[h];
    assert WellSigned(me, h, p.code, p.parameter, recorded, h in sys.dropped);
    DistinctCardinality(Makers(p.parameter));
  }

  lemma MakersSnoc(parameter: seq<Sig>, s: Sig)
    ensures Elements(Makers(parameter + [s])) == Elements(Makers(parameter)) + {s.signer}
  {
    assert Makers(parameter + [s]) == Makers(parameter) + [s.signer];
    ElementsSnoc(Makers(parameter), s.signer);
  }

  lemma OneMore(subs: seq<Submission>, sub: Submission, h: nat)
    ensures multiset(Bodies(subs + [sub]))[h] == multiset(Bodies(subs))[h] + if sub.body == h then 1 else 0
  {
    assert Bodies(subs + [sub]) == Bodies(subs) + [sub.body];
  }

  /** What has become of a collecting proposal. */
  ghost predicate Became(sys: System, next: System, h: nat, code: seq<Key>, makers: set<Key>, recorded: set<Key>,
                         needed: int) {
    if |makers| < SubmittedAt(needed) then
      Collecting(next, h, code, makers, recorded) && TimesSubmitted(next, h) == TimesSubmitted(sys, h)
    else
      h !in next.st.contents && TimesSubmitted(next, h) == TimesSubmitted(sys, h) + 1
  }

  /** One step of a collecting proposal. */
  lemma CollectStep(me: Key, sys: System, ev: Event, h: nat, code: seq<Key>, makers: set<Key>, recorded: set<Key>,
                    needed: int)
    requires Inv(me, sys) && Enabled(me, ev)
    requires Collecting(sys, h, code, makers, recorded) && |makers| < SubmittedAt(needed)
    requires ev.Delivered? ==> ev.env.needed == needed
    requires !ev.WasReset? && (ev.ProposedTx? ==> ev.body != h)
    ensures var sender := SenderOf(ev, h, code);
            Became(sys, Step(sys, ev), h, code, makers + (sender - recorded), recorded + sender, needed)
  {
    match ev
    case ProposedTx(env, body, code', same) =>
      CollectPropose(me, env, sys, body, code', same, h, code, makers, recorded);
      NobodyNew(makers, recorded, {});
    case Delivered(env, f) =>
      CollectingSize(me, sys, h, code, makers, recorded);
      CollectDelivery(me, env, sys, f, h, code, makers, recorded);
  }

  lemma CollectPropose(me: Key, env: Env, sys: System, body: nat, code': seq<Key>, same: bool,
                       h: nat, code: seq<Key>, makers: set<Key>, recorded: set<Key>)
    requires env.me == me && body != h && Collecting(sys, h, code, makers, recorded)
    ensures var next := DoPropose(env, sys, body, code', same);
            Collecting(next, h, code, makers, recorded) && TimesSubmitted(next, h) == TimesSubmitted(sys, h)
  {
    var next := ProposeOutcome(me, env, sys, body, code', same);
  }

  lemma CollectDelivery(me: Key, env: Env, sys: System, f: Feedback, h: nat, code: seq<Key>, makers: set<Key>,
                        recorded: set<Key>)
    requires PendingOk(me, sys) && env.me == me && f.target == f.pk
    requires Collecting(sys, h, code, makers, recorded) && makers <= recorded
    requires 1 <= |makers| == |sys.st.contents[h].parameter| < SubmittedAt(env.needed)
    ensures var sender := SenderOf(Delivered(env, f), h, code);
            Became(sys, DoReceive(env, sys, f), h, code, makers + (sender - recorded), recorded + sender, env.needed)
  {
    var next, taken := ReceiveOutcome(me, env, sys, f);
    var sender := SenderOf(Delivered(env, f), h, code);
    if taken && f.body == h {
      SomebodyNew(sender, recorded, f.pk);
      CollectTaken(env, sys, next, f, h, code, makers, recorded);
    } else {
      assert sender == {} || (sender == {f.pk} && f.pk in recorded);
      NobodyNew(makers, recorded, sender);
      if taken {
        CollectOther(env, sys, next, f, h, code, makers, recorded);
      }
    }
  }

  lemma NobodyNew(makers: set<Key>, recorded: set<Key>, sender: set<Key>)
    requires sender <= recorded
    ensures makers + (sender - recorded) == makers && recorded + sender == recorded
  {
  }

  lemma SomebodyNew(sender: set<Key>, recorded: set<Key>, k: Key)
    requires sender == {k} && k !in recorded
    ensures sender - recorded == {k}
  {
  }

  lemma CollectOther(env: Env, sys: System, next: System, f: Feedback, h: nat, code: seq<Key>, makers: set<Key>,
                     recorded: set<Key>)
    requires Collecting(sys, h, code, makers, recorded) && f.body != h
    requires f.body in sys.st.contents && f.body in sys.st.signers && Taken(env, sys, next, f)
    ensures Collecting(next, h, code, makers, recorded) && TimesSubmitted(next, h) == TimesSubmitted(sys, h)
  {
    if Fires(env, sys.st.contents[f.body].parameter) {
      OneMore(sys.subs, next.subs[|sys.subs|], h);
    }
  }

  lemma CollectTaken(env: Env, sys: System, next: System, f: Feedback, h: nat, code: seq<Key>, makers: set<Key>,
                     recorded: set<Key>)
    requires Collecting(sys, h, code, makers, recorded) && makers <= recorded && f.body == h
    requires 1 <= |makers| == |sys.st.contents[h].parameter| < SubmittedAt(env.needed)
    requires f.pk !in recorded && Taken(env, sys, next, f)
    ensures Became(sys, next, h, code, makers + {f.pk}, recorded + {f.pk}, env.needed)
  {
    var parameter := sys.st.contents[h].parameter;
    FiresAt(env, parameter);
    MakersSnoc(parameter, Sig(f.pk, Unsigned(h)));
    assert |makers + {f.pk}| == |makers| + 1;
    if Fires(env, parameter) {
      OneMore(sys.subs, next.subs[|sys.subs|], h);
    }
  }

  lemma {:induction false} StaysGone(me: Key, sys: System, evs: seq<Event>, h: nat)
    requires Inv(me, sys) && ValidRun(me, evs) && OnlyFeedback(evs, h) && h !in sys.st.contents
    ensures h !in Run(sys, evs).st.contents && TimesSubmitted(Run(sys, evs), h) == TimesSubmitted(sys, h)
    decreases |evs|
  {
    if evs != [] {
      var ev := evs[0];
      assert Enabled(me, ev) && forall i | 0 <= i < |evs[1..]| :: evs[1..][i] == evs[i + 1];
      StepKeeps(me, sys, ev);
      GoneStep(me, sys, ev, h);
      StaysGone(me, Step(sys, ev), evs[1..], h);
    }
  }

  lemma GoneStep(me: Key, sys: System, ev: Event, h: nat)
    requires Inv(me, sys) && Enabled(me, ev) && h !in sys.st.contents
    requires !ev.WasReset? && (ev.ProposedTx? ==> ev.body != h)
    ensures h !in Step(sys, ev).st.contents && TimesSubmitted(Step(sys, ev), h) == TimesSubmitted(sys, h)
  {
    match ev
    case ProposedTx(env, body, code, same) => var next := ProposeOutcome(me, env, sys, body, code, same);
    case Delivered(env, f) =>
      var next, taken := ReceiveOutcome(me, env, sys, f);
      if taken && Fires(env, sys.st.contents[f.body].parameter) {
        OneMore(sys.subs, next.subs[|sys.subs|], h);
      }
  }

  /** Confluence: what becomes of an open proposal depends only on who has sent
      genuine feedback, not on order, delay, duplication or whatever else is going
      on. It is submitted, once, if and only if its signatures and those of senders
      not yet on record are enough. */
  lemma {:induction false} FeedbackIsConfluent(me: Key, sys: System, evs: seq<Event>, h: nat, code: seq<Key>,
                                               makers: set<Key>, recorded: set<Key>, needed: int)
    requires Inv(me, sys) && ValidRun(me, evs) && NeedsAlways(evs, needed) && OnlyFeedback(evs, h)
    requires Collecting(sys, h, code, makers, recorded) && |makers| < SubmittedAt(needed)
    ensures var senders := Senders(evs, h, code);
            Became(sys, Run(sys, evs), h, code, makers + (senders - recorded), recorded + senders, needed)
    decreases |evs|
  {
    if evs == [] {
      NobodyNew(makers, recorded, {});
    } else {
      var ev, rest := evs[0], evs[1..];
      assert Enabled(me, ev) && forall i | 0 <= i < |rest| :: rest[i] == evs[i + 1];
      var next, sender, later := Step(sys, ev), SenderOf(ev, h, code), Senders(rest, h, code);
      var makers', recorded' := makers + (sender - recorded), recorded + sender;
      StepKeeps(me, sys, ev);
      CollectStep(me, sys, ev, h, code, makers, recorded, needed);
      SendersSplit(makers, recorded, sender, later);
      if |makers'| < SubmittedAt(needed) {
        FeedbackIsConfluent(me, next, rest, h, code, makers', recorded', needed);
        StillBecame(sys, next, Run(next, rest), h, code, makers' + (later - recorded'), recorded' + later, needed);
      } else {
        SubsetCardinality(makers', makers' + (later - recorded'));
        StaysGone(me, next, rest, h);
      }
    }
  }

  lemma SendersSplit(makers: set<Key>, recorded: set<Key>, sender: set<Key>, later: set<Key>)
    ensures makers + (sender - recorded) + (later - (recorded + sender)) == makers + (sender + later - recorded)
    ensures recorded + sender + later == recorded + (sender + later)
  {
  }

  lemma StillBecame(sys: System, next: System, last: System, h: nat, code: seq<Key>, makers: set<Key>,
                    recorded: set<Key>, needed: int)
    requires TimesSubmitted(next, h) == TimesSubmitted(sys, h) && Became(next, last, h, code, makers, recorded, needed)
    ensures Became(sys, last, h, code, makers, recorded, needed)
  {
  }

  /** A fresh proposal is submitted if and only if the proposer and its genuine senders
      make up the number at which the length-based count reaches the requirement; that
      is the required number itself for 2 to 64. */
  lemma ProposalIsSubmittedIff(env: Env, sys: System, h: nat, code: seq<Key>, evs: seq<Event>, needed: int)
    requires Inv(env.me, sys) && CanSign(env) && h !in sys.st.contents
    requires ValidRun(env.me, evs) && NeedsAlways(evs, needed) && OnlyFeedback(evs, h)
    ensures var last := Run(DoPropose(env, sys, h, code, false), evs);
            TimesSubmitted(last, h)
              == TimesSubmitted(sys, h) + if |{env.me} + Senders(evs, h, code)| >= SubmittedAt(needed) then 1 else 0
    ensures SubmittedAt(needed) == needed <==> 2 <= needed <= 64
  {
    var me, senders := env.me, Senders(evs, h, code);
    ProposeKeeps(me, env, sys, h, code, false);
    FreshProposal(env, sys, h, code);
    CountsOneTooMany(0, needed);
    FeedbackIsConfluent(me, DoPropose(env, sys, h, code, false), evs, h, code, {me}, {me}, needed);
    assert {me} + (senders - {me}) == {me} + senders;
  }

  lemma FreshProposal(env: Env, sys: System, h: nat, code: seq<Key>)
    requires PendingOk(env.me, sys) && CanSign(env) && h !in sys.st.contents
    ensures var next := DoPropose(env, sys, h, code, false);
            Collecting(next, h, code, {env.me}, {env.me}) && TimesSubmitted(next, h) == TimesSubmitted(sys, h)
  {
    assert Makers([Sig(env.me, Unsigned(h))]) == [env.me];
  }

  /** A property of the handler that its callers do not use: proposing the pending
      transaction object once more would cost it the signatures it had. Their makers
      stay on record and are not heard again, so it is submitted only if enough others
      sign. */
  lemma ReproposalForgetsSignatures(env: Env, sys: System, h: nat, code: seq<Key>, evs: seq<Event>, needed: int)
    requires Inv(env.me, sys) && CanSign(env) && h in sys.st.contents && code == sys.st.contents[h].code
    requires ValidRun(env.me, evs) && NeedsAlways(evs, needed) && OnlyFeedback(evs, h)
    ensures var last := Run(DoPropose(env, sys, h, code, true), evs);
            var signers := {env.me} + (Senders(evs, h, code) - sys.st.signers[h]);
            TimesSubmitted(last, h) == TimesSubmitted(sys, h) + if |signers| >= SubmittedAt(needed) then 1 else 0
  {
    var me := env.me;
    ProposeKeeps(me, env, sys, h, code, true);
    RenewedProposal(env, sys, h, code);
    CountsOneTooMany(0, needed);
    FeedbackIsConfluent(me, DoPropose(env, sys, h, code, true), evs, h, code, {me}, sys.st.signers[h], needed);
  }

  lemma RenewedProposal(env: Env, sys: System, h: nat, code: seq<Key>)
    requires sys.st.contents.Keys == sys.st.signers.Keys && CanSign(env)
    requires h in sys.st.contents && code == sys.st.contents[h].code
    ensures var next := DoPropose(env, sys, h, code, true);
            Collecting(next, h, code, {env.me}, sys.st.signers[h]) && TimesSubmitted(next, h) == TimesSubmitted(sys, h)
  {
    assert Makers([Sig(env.me, Unsigned(h))]) == [env.me];
  }

  // ---- quorums of submitted proposals share signers -------------------------------------

  function SignersOfSubmission(sub: Submission): set<Key> {
    Elements(Makers(sub.parameter))
  }

  /** Any two transactions submitted under the same arbiters have signers in common:
      two quorums' worth less all arbiters. Up to 95 arbiters that is more than a third
      of them, and from there on less by two for every 65 signatures required, as the
      count by length is that much ahead; in the middle height range it is up to four
      thirds of an arbiter less. */
  lemma SubmittedProposalsOverlap(me: Key, arbiters: set<Key>, evs: seq<Event>, i: nat, j: nat, height: nat, hs: Heights)
    requires ValidRun(me, evs) && NeedsAlways(evs, Required(|arbiters|, height, hs))
    requires me in arbiters && i < |Run(START, evs).subs| && j < |Run(START, evs).subs|
    requires forall e | e in evs && e.ProposedTx? :: Elements(e.code) <= arbiters
    ensures var subs, n, needed := Run(START, evs).subs, |arbiters|, Required(|arbiters|, height, hs);
            var common := |SignersOfSubmission(subs[i]) * SignersOfSubmission(subs[j])|;
            && common >= 2 * SubmittedAt(needed) - n
            && (!MiddleEra(height, hs) ==> 3 * common > n - 6 * (needed / 65) && common >= 1)
            && (!MiddleEra(height, hs) && n <= 95 ==> 3 * common > n)
            && (MiddleEra(height, hs) ==> 3 * common >= n - 4 - 6 * (needed / 65))
  {
    var needed := Required(|arbiters|, height, hs);
    var subs := Run(START, evs).subs;
    EnoughSigners(me, arbiters, evs, needed, i);
    EnoughSigners(me, arbiters, evs, needed, j);
    Overlap(SignersOfSubmission(subs[i]), SignersOfSubmission(subs[j]), arbiters);
    AtLeastRequired(|arbiters|, height, hs);
  }

  lemma AtLeastRequired(n: nat, height: nat, hs: Heights)
    ensures var needed := Required(n, height, hs);
            && SubmittedAt(needed) >= needed - needed / 65
            && 3 * needed >= 2 * n - 2 && (!MiddleEra(height, hs) ==> 3 * needed >= 2 * n + 1)
            && (n <= 95 ==> needed / 65 == 0) && 195 * (needed / 65) <= 2 * n + 3
  {
  }

  lemma EnoughSigners(me: Key, arbiters: set<Key>, evs: seq<Event>, needed: int, i: nat)
    requires ValidRun(me, evs) && NeedsAlways(evs, needed) && i < |Run(START, evs).subs| && me in arbiters
    requires forall e | e in evs && e.ProposedTx? :: Elements(e.code) <= arbiters
    ensures var sub := Run(START, evs).subs[i];
            SignersOfSubmission(sub) <= arbiters && |SignersOfSubmission(sub)| == SubmittedAt(needed)
  {
    var sub := Run(START, evs).subs[i];
    SubmissionsAreSafe(me, evs, i);
    SubmittedWithExactly(me, evs, needed, i);
    DistinctCardinality(Makers(sub.parameter));
    RunCodes(me, arbiters, START, evs);
    forall k | k in SignersOfSubmission(sub) ensures k in arbiters {
      var x :| 0 <= x < |sub.parameter| && sub.parameter[x].signer == k;
      assert x > 0 ==> k in Elements(sub.code);
    }
  }

  ghost predicate CodesWithin(arbiters: set<Key>, sys: System) {
    && (forall h | h in sys.st.contents :: Elements(sys.st.contents[h].code) <= arbiters)
    && (forall i | 0 <= i < |sys.subs| :: Elements(sys.subs[i].code) <= arbiters)
  }

  lemma {:induction false} RunCodes(me: Key, arbiters: set<Key>, sys: System, evs: seq<Event>)
    requires ValidRun(me, evs) && CodesWithin(arbiters, sys)
    requires forall e | e in evs && e.ProposedTx? :: Elements(e.code) <= arbiters
    ensures CodesWithin(arbiters, Run(sys, evs))
    decreases |evs|
  {
    if evs != [] {
      assert evs[0] in evs && Enabled(me, evs[0]) && forall i | 0 <= i < |evs[1..]| :: evs[1..][i] == evs[i + 1];
      StepCodes(me, arbiters, sys, evs[0]);
      RunCodes(me, arbiters, Step(sys, evs[0]), evs[1..]);
    }
  }

  lemma StepCodes(me: Key, arbiters: set<Key>, sys: System, ev: Event)
    requires Enabled(me, ev) && CodesWithin(arbiters, sys) && (ev.ProposedTx? ==> Elements(ev.code) <= arbiters)
    ensures CodesWithin(arbiters, Step(sys, ev))
  {
    match ev
    case ProposedTx(env, body, code, same) => var next := ProposeOutcome(me, env, sys, body, code, same);
    case Delivered(env, f) =>
    case WasReset =>
  }
}
