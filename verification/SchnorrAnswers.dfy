/** Who has answered in phase R, told from the events of a run alone: while a proposal is
    open, its entries are those of the proposer, if it drew a nonce, and of the listed
    arbiters that have answered since, each under its first answer. What the timer asks
    follows from that. */
module SchnorrAnswers {
  import opened Options
  import opened Lists
  import opened SchnorrMath
  import opened SchnorrProtocol
  import opened SchnorrRuns

  /** The event opens this proposal. */
  predicate Opens(ev: Event, nonce: Digest) {
    ev.ProposeTx? && NonceHash(TxHash(ev.tx)) == nonce
  }

  /** It brings a nonce for this proposal: the proposer's own, or that of an answer whose
      sender is listed at that moment. */
  predicate Gives(ev: Event, nonce: Digest) {
    || (ev.OwnNonce? && ev.nonce == nonce && ev.own.Some?)
    || (ev.RAnswered? && ev.nonce == nonce && ev.key != "" && ev.key in ev.arbiters)
  }

  function Giver(me: Key, ev: Event): Key {
    if ev.RAnswered? then ev.key else me
  }

  function Given(ev: Event): int {
    if ev.RAnswered? then ev.k0 else if ev.OwnNonce? && ev.own.Some? then ev.own.value else 0
  }

  predicate GivesFor(me: Key, ev: Event, nonce: Digest, k: Key) {
    Gives(ev, nonce) && Giver(me, ev) == k
  }

  /** Event p opens the proposal, and there has been no Reset since. */
  predicate OpenSince(evs: seq<Event>, nonce: Digest, p: int) {
    0 <= p < |evs| && Opens(evs[p], nonce) && forall j | p < j < |evs| :: !evs[j].WasReset?
  }

  /** Event i is the first since p that gives k's nonce. */
  predicate FirstGives(me: Key, evs: seq<Event>, nonce: Digest, p: int, i: int, k: Key) {
    0 <= p < i < |evs| && GivesFor(me, evs[i], nonce, k) && forall j | p < j < i :: !GivesFor(me, evs[j], nonce, k)
  }

  function Answerers(me: Key, evs: seq<Event>, nonce: Digest, p: nat): set<Key> {
    set i | p < i < |evs| && Gives(evs[i], nonce) :: Giver(me, evs[i])
  }

  /** A transaction of this proposal has been submitted. */
  ghost predicate Spent(sys: System, nonce: Digest) {
    exists i :: 0 <= i < |sys.subs| && sys.subs[i].hash in sys.asked && sys.asked[sys.subs[i].hash].nonce == nonce
  }

  /** The entry of k holds this nonce, its point, and k's public key; once the aggregation
      has run, the nonce may have been overwritten. */
  ghost predicate EntryIs(cfg: Config, e: Krp, k: Key, k0: int, spent: bool)
    requires cfg.g.n > 1
  {
    e.r == Residue(k0, cfg.g.n) && e.p == Residue(cfg.secret(k), cfg.g.n) && (e.k0 == k0 || spent)
  }

  // ---- one step -----------------------------------------------------------------------------------

  /** What an event adds to the entries of a proposal. */
  ghost predicate Adds(cfg: Config, rs: map<Key, Krp>, rs': map<Key, Krp>, ev: Event, nonce: Digest)
    requires cfg.g.n > 1
  {
    && (forall k :: k in rs' <==> k in rs || GivesFor(cfg.me, ev, nonce, k))
    && forall k | k in rs' && k !in rs ::
         rs'[k] == Krp(Given(ev), Residue(Given(ev), cfg.g.n), Residue(cfg.secret(k), cfg.g.n))
  }

  lemma AnswerRIs(st: State, n: Digest, key: Key, krp: Krp)
    requires !st.held && (n in st.rs ==> n in st.txs)
    ensures AnswerR(st, n, key, true, krp).0.rs
              == if n in st.rs && key !in st.rs[n] then st.rs[n := st.rs[n][key := krp]] else st.rs
  {
  }

  lemma OneEntryAdds(cfg: Config, rs: map<Digest, map<Key, Krp>>, rs': map<Digest, map<Key, Krp>>, ev: Event, nonce: Digest)
    requires cfg.g.n > 1 && nonce in rs && Gives(ev, nonce)
    requires var k := Giver(cfg.me, ev);
             rs' == if k !in rs[nonce] then rs[nonce := rs[nonce][k := HonestKrp(cfg, k, Given(ev))]] else rs
    ensures nonce in rs' && Adds(cfg, rs[nonce], rs'[nonce], ev, nonce)
  {
  }

  lemma NothingAdds(cfg: Config, rs: map<Digest, map<Key, Krp>>, rs': map<Digest, map<Key, Krp>>, ev: Event, nonce: Digest)
    requires cfg.g.n > 1 && nonce in rs && !Gives(ev, nonce)
    requires nonce in rs' && rs'[nonce] == rs[nonce]
    ensures Adds(cfg, rs[nonce], rs'[nonce], ev, nonce)
  {
  }

  lemma AnswerRAdds(cfg: Config, sys: System, ev: Event, nonce: Digest)
    requires cfg.g.n > 1 && Shape(sys) && Enabled(cfg, sys, ev) && ev.RAnswered? && nonce in sys.st.rs
    ensures var next := Step(cfg, sys, ev); nonce in next.st.rs && Adds(cfg, sys.st.rs[nonce], next.st.rs[nonce], ev, nonce)
  {
    AnswerRIs(sys.st, ev.nonce, ev.key, HonestKrp(cfg, ev.key, ev.k0));
    if Gives(ev, nonce) {
      OneEntryAdds(cfg, sys.st.rs, Step(cfg, sys, ev).st.rs, ev, nonce);
    } else {
      NothingAdds(cfg, sys.st.rs, Step(cfg, sys, ev).st.rs, ev, nonce);
    }
  }

  lemma RecordOwnIs(cfg: Config, st: State, n: Digest, own: Option<Krp>)
    ensures RecordOwn(cfg, st, n, own).0.rs
              == if own.Some? && n in st.rs then st.rs[n := st.rs[n][cfg.me := own.value]] else st.rs
  {
  }

  lemma OwnNonceAdds(cfg: Config, sys: System, ev: Event, nonce: Digest)
    requires cfg.g.n > 1 && Shape(sys) && Enabled(cfg, sys, ev) && ev.OwnNonce? && nonce in sys.st.rs
    ensures var next := Step(cfg, sys, ev); nonce in next.st.rs && Adds(cfg, sys.st.rs[nonce], next.st.rs[nonce], ev, nonce)
  {
    RecordOwnIs(cfg, sys.st, ev.nonce, OwnKrp(cfg, ev.own));
    if Gives(ev, nonce) {
      assert sys.st.rs[nonce] == map[];
      OneEntryAdds(cfg, sys.st.rs, Step(cfg, sys, ev).st.rs, ev, nonce);
    } else {
      NothingAdds(cfg, sys.st.rs, Step(cfg, sys, ev).st.rs, ev, nonce);
    }
  }

  lemma ProposeAdds(cfg: Config, sys: System, ev: Event, nonce: Digest)
    requires cfg.g.n > 1 && Shape(sys) && Enabled(cfg, sys, ev) && ev.ProposeTx?
    ensures var next := Step(cfg, sys, ev);
            if Opens(ev, nonce) then nonce in next.st.rs && next.st.rs[nonce] == map[]
            else if nonce in sys.st.rs then nonce in next.st.rs && next.st.rs[nonce] == sys.st.rs[nonce]
            else nonce !in next.st.rs
  {
  }

  lemma SameKeysAdd(cfg: Config, rs: map<Key, Krp>, rs': map<Key, Krp>, ev: Event, nonce: Digest)
    requires cfg.g.n > 1 && rs'.Keys == rs.Keys && !ev.OwnNonce? && !ev.RAnswered?
    ensures Adds(cfg, rs, rs', ev, nonce)
  {
  }

  ghost predicate SameEntryKeys(rs: map<Digest, map<Key, Krp>>, rs': map<Digest, map<Key, Krp>>) {
    rs'.Keys == rs.Keys && forall n | n in rs :: rs'[n].Keys == rs[n].Keys
  }

  /** Shares may overwrite nonces and add none. */
  lemma ShareKeys(cfg: Config, sys: System, h: Digest, key: Key)
    requires cfg.g.Valid() && Inv(cfg, sys) && h in sys.asked && key in sys.asked[h].pks
    ensures SameEntryKeys(sys.st.rs, DoAnswerS(cfg, sys, h, key).st.rs)
  {
    var next, taken := AnswerSOutcome(cfg, sys, h, key);
    if taken {
      TakenEntryKeys(cfg, sys, next, h, key);
    }
  }

  lemma AnswerSKeys(cfg: Config, sys: System, ev: Event)
    requires cfg.g.Valid() && Inv(cfg, sys) && Enabled(cfg, sys, ev) && ev.SAnswered?
    ensures SameEntryKeys(sys.st.rs, Step(cfg, sys, ev).st.rs)
  {
    ShareKeys(cfg, sys, ev.hash, ev.key);
  }

  lemma TakenEntryKeys(cfg: Config, sys: System, next: System, h: Digest, key: Key)
    requires cfg.g.n > 1 && h in sys.st.ss && h in sys.asked && sys.asked[h].nonce in sys.st.rs
    requires ShareTaken(cfg, sys, next, h, key)
    ensures SameEntryKeys(sys.st.rs, next.st.rs)
  {
    forall n | n in sys.st.rs ensures n in next.st.rs && next.st.rs[n].Keys == sys.st.rs[n].Keys {
      if n != sys.asked[h].nonce {
        TakenNonces(cfg, sys, next, h, key, n);
      }
    }
  }

  lemma StepAdds(cfg: Config, sys: System, ev: Event, nonce: Digest)
    requires cfg.g.Valid() && Inv(cfg, sys) && Enabled(cfg, sys, ev) && !ev.WasReset? && nonce in sys.st.rs
    ensures var next := Step(cfg, sys, ev); nonce in next.st.rs && Adds(cfg, sys.st.rs[nonce], next.st.rs[nonce], ev, nonce)
  {
    match ev
    case ProposeTx(_) => ProposeAdds(cfg, sys, ev, nonce);
    case OwnNonce(_, _) => OwnNonceAdds(cfg, sys, ev, nonce);
    case RAnswered(_, _, _, _) => AnswerRAdds(cfg, sys, ev, nonce);
    case TimerFired(n, arbiters, min, order) => var next := TimerFrame(cfg, sys, n, arbiters, min, order);
    case SAnswered(_, _, _, _) => AnswerSKeys(cfg, sys, ev);
    case RForged(_, _, _) => ForgedIsNothing(cfg, sys, ev);
    case SForged(_) => ForgedIsNothing(cfg, sys, ev);
  }

  /** Only its own event opens a proposal. */
  lemma OnlyOpened(cfg: Config, sys: System, ev: Event, nonce: Digest)
    requires cfg.g.Valid() && Inv(cfg, sys) && Enabled(cfg, sys, ev) && nonce in Step(cfg, sys, ev).st.rs
    ensures !ev.WasReset? && (nonce in sys.st.rs || Opens(ev, nonce))
  {
    match ev
    case ProposeTx(_) => ProposeAdds(cfg, sys, ev, nonce);
    case OwnNonce(n, own) => RecordOwnIs(cfg, sys.st, n, OwnKrp(cfg, own));
    case RAnswered(n, k, k0, list) => AnswerRIs(sys.st, n, k, HonestKrp(cfg, k, k0));
    case TimerFired(n, arbiters, min, order) => var next := TimerFrame(cfg, sys, n, arbiters, min, order);
    case SAnswered(_, _, _, _) => AnswerSKeys(cfg, sys, ev);
    case RForged(_, _, _) => ForgedIsNothing(cfg, sys, ev);
    case SForged(_) => ForgedIsNothing(cfg, sys, ev);
    case WasReset =>
  }

  // ---- over every run --------------------------------------------------------------------------

  lemma LastStep(cfg: Config, evs: seq<Event>)
    requires cfg.g.Valid() && ValidRun(cfg, START, evs) && evs != []
    ensures var init, last := evs[..|evs| - 1], evs[|evs| - 1];
            && ValidRun(cfg, START, init) && Inv(cfg, Run(cfg, START, init)) && Enabled(cfg, Run(cfg, START, init), last)
            && Run(cfg, START, evs) == Step(cfg, Run(cfg, START, init), last)
  {
    var init, last := evs[..|evs| - 1], evs[|evs| - 1];
    assert evs == init + [last];
    RunParts(cfg, START, init, last);
    StartInv(cfg);
    RunKeeps(cfg, START, init);
  }

  lemma {:induction false} RunParts(cfg: Config, sys: System, evs: seq<Event>, ev: Event)
    requires cfg.g.n > 1 && ValidRun(cfg, sys, evs + [ev])
    ensures ValidRun(cfg, sys, evs) && Enabled(cfg, Run(cfg, sys, evs), ev)
    ensures Run(cfg, sys, evs + [ev]) == Step(cfg, Run(cfg, sys, evs), ev)
    decreases |evs|
  {
    if evs == [] {
      assert evs + [ev] == [ev];
    } else {
      assert (evs + [ev])[1..] == evs[1..] + [ev];
      RunParts(cfg, Step(cfg, sys, evs[0]), evs[1..], ev);
    }
  }

  /** A proposal has entries exactly while it is open. */
  lemma {:induction false} OpenIff(cfg: Config, evs: seq<Event>, nonce: Digest)
    requires cfg.g.Valid() && ValidRun(cfg, START, evs)
    ensures nonce in Run(cfg, START, evs).st.rs <==> exists p :: OpenSince(evs, nonce, p)
  {
    if evs != [] {
      var init, last := evs[..|evs| - 1], evs[|evs| - 1];
      LastStep(cfg, evs);
      OpenIff(cfg, init, nonce);
      OpenSnoc(evs, nonce);
      OpenStep(cfg, Run(cfg, START, init), last, nonce);
    }
  }

  lemma OpenStep(cfg: Config, sys: System, ev: Event, nonce: Digest)
    requires cfg.g.Valid() && Inv(cfg, sys) && Enabled(cfg, sys, ev)
    ensures nonce in Step(cfg, sys, ev).st.rs <==> Opens(ev, nonce) || (nonce in sys.st.rs && !ev.WasReset?)
  {
    if nonce in Step(cfg, sys, ev).st.rs {
      OnlyOpened(cfg, sys, ev, nonce);
    } else if Opens(ev, nonce) {
      ProposeAdds(cfg, sys, ev, nonce);
    } else if nonce in sys.st.rs && !ev.WasReset? {
      StepAdds(cfg, sys, ev, nonce);
    }
  }

  lemma OpenSnoc(evs: seq<Event>, nonce: Digest)
    requires evs != []
    ensures var init, last := evs[..|evs| - 1], evs[|evs| - 1];
            (exists p :: OpenSince(evs, nonce, p)) <==>
              Opens(last, nonce) || (!last.WasReset? && exists p :: OpenSince(init, nonce, p))
  {
    var n := |evs| - 1;
    var init, last := evs[..n], evs[n];
    assert forall j | 0 <= j < n :: init[j] == evs[j];
    if p :| OpenSince(evs, nonce, p) {
      assert p < n ==> OpenSince(init, nonce, p);
    }
    if Opens(last, nonce) {
      assert OpenSince(evs, nonce, n);
    }
    if p :| OpenSince(init, nonce, p) && !last.WasReset? {
      assert OpenSince(evs, nonce, p);
    }
  }

  ghost predicate Recorded(cfg: Config, evs: seq<Event>, sys: System, nonce: Digest, p: int, k: Key)
    requires cfg.g.n > 1
  {
    && nonce in sys.st.rs
    && (k in sys.st.rs[nonce] <==> exists i :: FirstGives(cfg.me, evs, nonce, p, i, k))
    && forall i | FirstGives(cfg.me, evs, nonce, p, i, k) ::
         EntryIs(cfg, sys.st.rs[nonce][k], k, Given(evs[i]), Spent(sys, nonce))
  }

  /** Over every run: while a proposal is open, an arbiter has an entry if and only if its
      nonce has come since the opening, and the entry is what came first. */
  lemma {:induction false} FirstAnswersAreRecorded(cfg: Config, evs: seq<Event>, nonce: Digest, p: int, k: Key)
    requires cfg.g.Valid() && ValidRun(cfg, START, evs) && OpenSince(evs, nonce, p)
    ensures Recorded(cfg, evs, Run(cfg, START, evs), nonce, p, k)
    decreases |evs|
  {
    var n := |evs| - 1;
    var init, last := evs[..n], evs[n];
    LastStep(cfg, evs);
    var sys := Run(cfg, START, init);
    if p == n {
      ProposeAdds(cfg, sys, last, nonce);
    } else {
      assert forall j | 0 <= j < n :: init[j] == evs[j];
      FirstAnswersAreRecorded(cfg, init, nonce, p, k);
      StepAdds(cfg, sys, last, nonce);
      StepEntriesKept(cfg, sys, last);
      RecordedSnoc(cfg, evs, sys, Step(cfg, sys, last), nonce, p, k);
    }
  }

  lemma FirstSnoc(me: Key, evs: seq<Event>, nonce: Digest, p: int, k: Key)
    requires evs != [] && 0 <= p < |evs| - 1
    ensures var n := |evs| - 1;
            && (forall i | i < n :: FirstGives(me, evs, nonce, p, i, k) <==> FirstGives(me, evs[..n], nonce, p, i, k))
            && (FirstGives(me, evs, nonce, p, n, k) <==>
                  GivesFor(me, evs[n], nonce, k) && !exists i :: FirstGives(me, evs[..n], nonce, p, i, k))
  {
    var n := |evs| - 1;
    assert forall j | 0 <= j < n :: evs[..n][j] == evs[j];
    if !FirstGives(me, evs, nonce, p, n, k) && GivesFor(me, evs[n], nonce, k) {
      var j :| p < j < n && GivesFor(me, evs[j], nonce, k);
      var i := Earliest(me, evs[..n], nonce, p, j, k);
    }
  }

  lemma Earliest(me: Key, evs: seq<Event>, nonce: Digest, p: int, j: int, k: Key) returns (i: int)
    requires 0 <= p < j < |evs| && GivesFor(me, evs[j], nonce, k)
    ensures FirstGives(me, evs, nonce, p, i, k)
  {
    i := p + 1;
    while !GivesFor(me, evs[i], nonce, k)
      invariant p < i <= j
      invariant forall x | p < x < i :: !GivesFor(me, evs[x], nonce, k)
      decreases j - i
    {
      i := i + 1;
    }
  }

  lemma RecordedSnoc(cfg: Config, evs: seq<Event>, sys: System, next: System, nonce: Digest, p: int, k: Key)
    requires cfg.g.n > 1 && evs != [] && 0 <= p < |evs| - 1
    requires Recorded(cfg, evs[..|evs| - 1], sys, nonce, p, k) && EntriesKept(sys, next)
    requires nonce in next.st.rs && Adds(cfg, sys.st.rs[nonce], next.st.rs[nonce], evs[|evs| - 1], nonce)
    ensures Recorded(cfg, evs, next, nonce, p, k)
  {
    var n := |evs| - 1;
    FirstSnoc(cfg.me, evs, nonce, p, k);
    SpentStays(sys, next, nonce);
    forall i | FirstGives(cfg.me, evs, nonce, p, i, k)
      ensures k in next.st.rs[nonce] && EntryIs(cfg, next.st.rs[nonce][k], k, Given(evs[i]), Spent(next, nonce)) {
      if i < n {
        assert FirstGives(cfg.me, evs[..n], nonce, p, i, k) && evs[..n][i] == evs[i];
      }
    }
    if k in next.st.rs[nonce] {
      if k in sys.st.rs[nonce] {
        var i :| FirstGives(cfg.me, evs[..n], nonce, p, i, k);
        assert FirstGives(cfg.me, evs, nonce, p, i, k);
      } else {
        assert FirstGives(cfg.me, evs, nonce, p, n, k);
      }
    }
  }

  lemma SpentStays(sys: System, next: System, nonce: Digest)
    requires EntriesKept(sys, next)
    ensures Spent(sys, nonce) ==> Spent(next, nonce)
    ensures SubmittedSince(sys, next, nonce) ==> Spent(next, nonce)
  {
    if Spent(sys, nonce) {
      var i :| 0 <= i < |sys.subs| && sys.subs[i].hash in sys.asked && sys.asked[sys.subs[i].hash].nonce == nonce;
      assert next.subs[i] == sys.subs[i];
    }
  }

  /** So the entries of an open proposal are those of exactly these arbiters. */
  lemma EntriesAreAnswerers(cfg: Config, evs: seq<Event>, nonce: Digest, p: nat)
    requires cfg.g.Valid() && ValidRun(cfg, START, evs) && OpenSince(evs, nonce, p)
    ensures nonce in Run(cfg, START, evs).st.rs
    ensures Run(cfg, START, evs).st.rs[nonce].Keys == Answerers(cfg.me, evs, nonce, p)
  {
    var sys := Run(cfg, START, evs);
    FirstAnswersAreRecorded(cfg, evs, nonce, p, cfg.me);
    forall k ensures k in sys.st.rs[nonce] <==> k in Answerers(cfg.me, evs, nonce, p) {
      FirstAnswersAreRecorded(cfg, evs, nonce, p, k);
      if k in Answerers(cfg.me, evs, nonce, p) {
        var i :| p < i < |evs| && Gives(evs[i], nonce) && Giver(cfg.me, evs[i]) == k;
        var j := Earliest(cfg.me, evs, nonce, p, i, k);
      }
      if k in sys.st.rs[nonce] {
        var i :| FirstGives(cfg.me, evs, nonce, p, i, k);
        assert Gives(evs[i], nonce);
      }
    }
  }

  // ---- what the timer asks ------------------------------------------------------------------------

  /** Over every run, the timer asks as many signers as are required if and only if its
      proposal is open, that many arbiters have answered since, and all of those chosen
      are still listed and not blank. */
  lemma TimerAsksIff(cfg: Config, evs: seq<Event>, nonce: Digest, p: nat, arbiters: seq<Key>, min: nat, order: seq<Key>)
    requires cfg.g.Valid() && ValidRun(cfg, START, evs) && 0 < min
    requires Enabled(cfg, Run(cfg, START, evs), TimerFired(nonce, arbiters, min, order))
    ensures var sys := Run(cfg, START, evs);
            var next := Step(cfg, sys, TimerFired(nonce, arbiters, min, order));
            && (OpenSince(evs, nonce, p) ==>
                  (Asks(sys, next, min) <==>
                     && |Answerers(cfg.me, evs, nonce, p)| >= min
                     && forall k | k in Chosen(order, min) :: k != "" && k in arbiters))
            && ((forall q :: !OpenSince(evs, nonce, q)) ==> next.asked == sys.asked)
  {
    var sys := Run(cfg, START, evs);
    StartInv(cfg);
    RunKeeps(cfg, START, evs);
    OpenIff(cfg, evs, nonce);
    if OpenSince(evs, nonce, p) {
      EntriesAreAnswerers(cfg, evs, nonce, p);
      RoundAsksMinIff(cfg, sys, nonce, arbiters, min, order);
    } else if forall q :: !OpenSince(evs, nonce, q) {
      NothingOpen(cfg, sys, nonce, arbiters, min, order);
    }
  }

  lemma NothingOpen(cfg: Config, sys: System, nonce: Digest, arbiters: seq<Key>, min: nat, order: seq<Key>)
    requires cfg.g.n > 1 && nonce !in sys.st.rs
    ensures DoTimer(cfg, sys, nonce, arbiters, min, order).asked == sys.asked
  {
  }

  /** Over every run, once enough arbiters have answered an open proposal, the timer
      sends a new request. It asks different arbiters that answered, at most as many as
      required, the proposer among them exactly while it is listed, and it leaves out
      no listed arbiter that answered in favour of one that owes more. */
  lemma TimerAsksFairly(cfg: Config, evs: seq<Event>, nonce: Digest, p: nat, arbiters: seq<Key>, min: nat, order: seq<Key>)
    returns (r: Request)
    requires cfg.g.Valid() && ValidRun(cfg, START, evs) && OpenSince(evs, nonce, p)
    requires Enabled(cfg, Run(cfg, START, evs), TimerFired(nonce, arbiters, min, order))
    requires 0 < min <= |Answerers(cfg.me, evs, nonce, p)|
    ensures var sys, answered := Run(cfg, START, evs), Answerers(cfg.me, evs, nonce, p);
            && TxHash(r.tx) !in sys.asked
            && Step(cfg, sys, TimerFired(nonce, arbiters, min, order)).asked == sys.asked[TxHash(r.tx) := r]
            && |r.pks| <= min && Distinct(r.pks) && Elements(r.pks) <= answered
            && (cfg.me in r.pks <==> cfg.me != "" && cfg.me in arbiters)
            && (Names(arbiters, r.tx.signers, r.pks) <==> FitBytes(arbiters, |arbiters|, Elements(Chosen(order, min))))
            && forall a, b | a in r.pks && b in answered && b != "" && b in arbiters && b !in r.pks ::
                 MayPrecede(sys.st.unsigned, cfg.me, a, b)
  {
    StartInv(cfg);
    RunKeeps(cfg, START, evs);
    EntriesAreAnswerers(cfg, evs, nonce, p);
    r := OpenedRoundIsFair(cfg, Run(cfg, START, evs), nonce, arbiters, min, order);
  }
}
