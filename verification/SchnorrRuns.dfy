/** Runs of the Schnorr withdrawal with honest signers over a network that may
    delay, reorder, duplicate or lose their answers, with Reset and changes of the
    arbiter list at any time; the proposer itself may leave the list.

    A transaction carries a random nonce attribute, so a proposal is always for a
    transaction not proposed before. The message that starts the S phase is sent
    once per proposal and survives Reset, as it waits in the message queue. */
module SchnorrRuns {
  import opened Lists
  import opened Options
  import opened Quorum
  import opened Sums
  import opened SchnorrMath
  import opened SchnorrProtocol

  datatype Entry = Round(arbiters: seq<Key>, responders: set<Key>) | ShareAccepted(key: Key)

  /** What the timer found when it opened a round. */
  datatype Basis = Basis(list: seq<Key>, min: nat)

  datatype System = System(
    st: State,
    opening: set<Digest>,             // proposals opened, own nonce not yet recorded
    timers: set<Digest>,              // start-S-phase messages waiting in the queue
    used: set<Digest>,                // nonce hashes ever proposed
    asked: map<Digest, Request>,      // S-phase requests ever broadcast
    bases: map<Digest, Basis>,        // the arbiter list and threshold each was made from
    subs: seq<Submission>,            // transactions handed to the main chain
    signed: map<Digest, set<Key>>,    // whose shares went into each of them
    log: seq<Entry>)                  // what the accounting has seen

  const START := System(INITIAL, {}, {}, {}, map[], map[], [], map[], [])

  /** A proposal is opened; the proposer records its own nonce, if it can draw one, and
      only then broadcasts; answers come; the timer fires. `arbiters` is the list of the
      moment in which the proposer handles an event. An honest signer answers a request of
      the S phase only if its payload names as many signers as this signer's own view of
      the arbiters requires (`needed`). Anybody may send answers with a signature that is
      not the signer's. */
  datatype Event =
    | ProposeTx(tx: Tx)
    | OwnNonce(nonce: Digest, own: Option<int>)
    | RAnswered(nonce: Digest, key: Key, k0: int, arbiters: seq<Key>)
    | TimerFired(nonce: Digest, arbiters: seq<Key>, min: nat, order: seq<Key>)
    | SAnswered(hash: Digest, key: Key, arbiters: seq<Key>, needed: nat)
    | RForged(nonce: Digest, key: Key, krp: Krp)
    | SForged(answer: AnswerS)
    | WasReset

  function HonestKrp(cfg: Config, key: Key, k0: int): Krp
    requires cfg.g.n > 1
  {
    Krp(k0, Residue(k0, cfg.g.n), Residue(cfg.secret(key), cfg.g.n))
  }

  function OwnKrp(cfg: Config, k0: Option<int>): Option<Krp>
    requires cfg.g.n > 1
  {
    if k0.Some? then Some(HonestKrp(cfg, cfg.me, k0.value)) else None
  }

  ghost predicate Enabled(cfg: Config, sys: System, ev: Event) {
    match ev
    case ProposeTx(tx) => tx.signers == [] && NonceHash(TxHash(tx)) !in sys.used
    case OwnNonce(nonce, own) => nonce in sys.opening
    case RAnswered(nonce, key, k0, arbiters) => nonce !in sys.opening
    case TimerFired(nonce, arbiters, min, order) =>
      && nonce in sys.timers && NoRepeats(arbiters)
      && (nonce in sys.st.rs ==> IntendedOrder(order, sys.st.rs[nonce].Keys, sys.st.unsigned, cfg.me))
    case SAnswered(hash, key, arbiters, needed) =>
      hash in sys.asked && key in sys.asked[hash].pks && |sys.asked[hash].tx.signers| == needed
    case RForged(_, _, _) => true
    case SForged(_) => true
    case WasReset => true
  }

  ghost function Step(cfg: Config, sys: System, ev: Event): System
    requires cfg.g.n > 1 && Enabled(cfg, sys, ev)
  {
    match ev
    case ProposeTx(tx) => DoPropose(sys, tx)
    case OwnNonce(nonce, own) => DoOwnNonce(cfg, sys, nonce, own)
    case RAnswered(nonce, key, k0, arbiters) =>
      if IsListed(arbiters, key) then DoAnswerR(cfg, sys, nonce, key, k0) else sys
    case TimerFired(nonce, arbiters, min, order) => DoTimer(cfg, sys, nonce, arbiters, min, order)
    case SAnswered(hash, key, arbiters, needed) =>
      if IsListed(arbiters, key) then DoAnswerS(cfg, sys, hash, key) else sys
    case RForged(nonce, key, krp) => sys.(st := AnswerR(sys.st, nonce, key, false, krp).0)
    case SForged(answer) => sys.(st := ReceiveS(cfg, sys.st, answer, false, {}).0)
    case WasReset => sys.(st := Reset(sys.st))
  }

  function DoPropose(sys: System, tx: Tx): System {
    var nonce := NonceHash(TxHash(tx));
    var (st, o) := Propose(sys.st, tx);
    sys.(st := st, used := sys.used + {nonce}, opening := if o.Recorded? then sys.opening + {nonce} else sys.opening)
  }

  function DoOwnNonce(cfg: Config, sys: System, nonce: Digest, own: Option<int>): System
    requires cfg.g.n > 1
  {
    var (st, o) := RecordOwn(cfg, sys.st, nonce, OwnKrp(cfg, own));
    sys.(st := st, opening := sys.opening - {nonce},
         timers := if o.Recorded? then sys.timers + {nonce} else sys.timers)
  }

  function DoAnswerR(cfg: Config, sys: System, nonce: Digest, key: Key, k0: int): System
    requires cfg.g.n > 1
  {
    sys.(st := AnswerR(sys.st, nonce, key, true, HonestKrp(cfg, key, k0)).0)
  }

  function DoTimer(cfg: Config, sys: System, nonce: Digest, arbiters: seq<Key>, min: nat, order: seq<Key>): System
    requires cfg.g.n > 1 && (nonce in sys.st.rs ==> Elements(order) == sys.st.rs[nonce].Keys)
  {
    var (st, o) := StartRound(cfg, sys.st, nonce, arbiters, min, order);
    sys.(st := st,
         timers := sys.timers - {nonce},
         asked := if o.Asked? then sys.asked[TxHash(o.request.tx) := o.request] else sys.asked,
         bases := if o.Asked? then sys.bases[TxHash(o.request.tx) := Basis(arbiters, min)] else sys.bases,
         log := if o.Asked? || o.TooFew? then sys.log + [Round(arbiters, sys.st.rs[nonce].Keys)] else sys.log)
  }

  ghost function DoAnswerS(cfg: Config, sys: System, hash: Digest, key: Key): System
    requires cfg.g.n > 1 && hash in sys.asked
  {
    var (st, o) := ReceiveS(cfg, sys.st, HonestShare(cfg, sys.asked[hash], key), true, WouldVisit(sys, hash, key));
    sys.(st := st,
         subs := if o.Submitted? then sys.subs + [o.submission] else sys.subs,
         signed := if o.Submitted? then sys.signed[hash := WouldVisit(sys, hash, key)] else sys.signed,
         log := if Accepts(sys, hash, key) then sys.log + [ShareAccepted(key)] else sys.log)
  }

  /** An honest signer answers with its request's challenge times its private key,
      unreduced. */
  function HonestShare(cfg: Config, r: Request, key: Key): AnswerS {
    AnswerS(r.nonce, r.tx, r.pks, key, r.e * cfg.secret(key))
  }

  function WouldVisit(sys: System, hash: Digest, key: Key): set<Key> {
    if hash in sys.st.ss then sys.st.ss[hash].Keys + {key} else {}
  }

  /** The share changes the state: the round is open, the signer not yet recorded
      and in credit. */
  predicate Accepts(sys: System, hash: Digest, key: Key) {
    && !sys.st.held && hash in sys.st.txs && hash in sys.st.ss && TxHash(sys.st.txs[hash]) in sys.st.ss
    && key !in sys.st.ss[TxHash(sys.st.txs[hash])] && Count(sys.st.unsigned, key) >= 1
  }

  // ---- invariants ---------------------------------------------------------------

  ghost predicate Shape(sys: System) {
    && !sys.st.held
    && sys.timers <= sys.used && sys.st.rs.Keys <= sys.used && sys.opening <= sys.used && sys.timers !! sys.opening
    && (forall h | h in sys.opening && h in sys.st.rs :: sys.st.rs[h] == map[])
    && (forall h | h in sys.st.txs && h.TxHash? :: sys.st.txs[h] == h.tx && h in sys.st.ss)
    && (forall h | h in sys.st.txs && h.NonceHash? ::
          h == NonceHash(TxHash(sys.st.txs[h])) && sys.st.txs[h].signers == [] && h in sys.st.rs)
    && (forall h | h in sys.st.rs :: h.NonceHash? && h in sys.st.txs)
    && (forall h | h in sys.st.ss :: h.TxHash? && h in sys.st.txs)
  }

  /** Requests ever sent: well formed, one per proposal, never for a proposal whose
      timer is still running. */
  ghost predicate RequestsOk(cfg: Config, sys: System) {
    && (forall h | h in sys.asked :: RequestOk(cfg, sys.asked[h], h))
    && (forall h | h in sys.asked :: sys.asked[h].nonce in sys.used - sys.timers - sys.opening)
    && (forall h, h' | h in sys.asked && h' in sys.asked && sys.asked[h].nonce == sys.asked[h'].nonce :: h == h')
  }

  ghost predicate RequestOk(cfg: Config, r: Request, h: Digest) {
    && h == TxHash(r.tx)
    && r.nonce == NonceHash(TxHash(Tx(r.tx.base, [])))
    && Distinct(r.pks)
  }

  /** Every recorded key is the signer's own. */
  ghost predicate KeysOk(cfg: Config, sys: System)
    requires cfg.g.n > 1
  {
    forall h | h in sys.st.rs :: NonceOk(cfg, sys.st.rs[h])
  }

  ghost predicate NonceOk(cfg: Config, rs: map<Key, Krp>)
    requires cfg.g.n > 1
  {
    forall k | k in rs :: rs[k].p == Residue(cfg.secret(k), cfg.g.n)
  }

  /** No nonce of this proposal has been overwritten yet. */
  ghost predicate Unspent(cfg: Config, rs: map<Key, Krp>) {
    forall k | k in rs :: Cong(rs[k].r, rs[k].k0, cfg.g.n)
  }

  /** Where an S phase is scheduled, the proposer has recorded its own nonce. */
  ghost predicate TimersUnspent(cfg: Config, sys: System) {
    forall h | h in sys.timers && h in sys.st.rs :: cfg.me in sys.st.rs[h] && Unspent(cfg, sys.st.rs[h])
  }

  ghost predicate SubmittedHash(sys: System, h: Digest) {
    exists i :: 0 <= i < |sys.subs| && sys.subs[i].hash == h
  }

  ghost predicate RoundOk(cfg: Config, sys: System, h: Digest)
    requires cfg.g.n > 1 && h in sys.st.ss
  {
    && h in sys.asked && sys.asked[h].nonce in sys.st.rs
    && RoundFits(cfg, sys.asked[h], sys.st.rs[sys.asked[h].nonce], sys.st.ss[h], h)
    && (SubmittedHash(sys, h) <==> Full(sys.asked[h].pks, sys.st.ss[h]))
    && (!Full(sys.asked[h].pks, sys.st.ss[h]) ==> Unspent(cfg, sys.st.rs[sys.asked[h].nonce]))
  }

  /** There are as many shares as asked keys, the proposer's own share among them, asked
      or not. */
  predicate Full(pks: seq<Key>, ss: map<Key, int>) {
    |pks| >= 2 && |ss| >= |pks|
  }

  ghost predicate RoundFits(cfg: Config, r: Request, rs: map<Key, Krp>, ss: map<Key, int>, h: Digest)
    requires cfg.g.n > 1
  {
    && Elements(r.pks) <= rs.Keys
    && r.e == Challenge(cfg.g, rs, r.pks, h)
    && cfg.me in ss && cfg.me in rs && ss.Keys <= Elements(r.pks) + {cfg.me}
    && (forall k | k in ss :: ss[k] == r.e * cfg.secret(k))
  }

  ghost predicate RoundsOk(cfg: Config, sys: System)
    requires cfg.g.n > 1
  {
    forall h | h in sys.st.ss :: RoundOk(cfg, sys, h)
  }

  /** The key under which a set of signers signs together. */
  ghost function JointKey(cfg: Config, keys: set<Key>): int
    requires cfg.g.n > 1
  {
    Residue(MapSum(map k | k in keys :: cfg.secret(k)), cfg.g.n)
  }

  /** As many signers as were asked, at least two: the proposer, and otherwise asked
      ones. */
  ghost predicate SignersFit(me: Key, pks: seq<Key>, signers: set<Key>) {
    |pks| >= 2 && |signers| == |pks| && me in signers && signers <= Elements(pks) + {me}
  }

  /** The submitted signature is under the joint key of its signers. Unless their nonces
      cancelled out, it verifies exactly if the challenge of the request serves for this
      key, as it does if the signers are those that were asked. */
  ghost predicate SubmissionOk(cfg: Config, r: Request, signers: set<Key>, sub: Submission)
    requires cfg.g.n > 1
  {
    && SignersFit(cfg.me, r.pks, signers)
    && sub.p == JointKey(cfg, signers)
    && (sub.rsum != 0 ==> (Verified(cfg, sub) <==> ChallengeServes(cfg, r, sub)))
    && (sub.rsum != 0 && signers == Elements(r.pks) ==> Verified(cfg, sub))
  }

  ghost predicate Verified(cfg: Config, sub: Submission)
    requires cfg.g.n > 1
  {
    cfg.g.Verifies(cfg.g.X(sub.rsum), sub.s, sub.p, sub.hash)
  }

  ghost predicate ChallengeServes(cfg: Config, r: Request, sub: Submission)
    requires cfg.g.n > 1
  {
    Cong(r.e * sub.p, cfg.g.ChallengeTimesKey(cfg.g.X(sub.rsum), sub.p, sub.hash), cfg.g.n)
  }

  ghost predicate SubmissionsOk(cfg: Config, sys: System)
    requires cfg.g.n > 1
  {
    && (forall i | 0 <= i < |sys.subs| ::
          && sys.subs[i].hash in sys.asked && sys.subs[i].hash in sys.signed
          && SubmissionOk(cfg, sys.asked[sys.subs[i].hash], sys.signed[sys.subs[i].hash], sys.subs[i]))
    && (forall i, j | 0 <= i < j < |sys.subs| :: sys.subs[i].hash != sys.subs[j].hash)
  }

  /** Rounds in which a signer was asked and has not answered. */
  ghost function Outstanding(sys: System, k: Key): set<Digest> {
    set h | h in sys.st.ss && h in sys.asked && k in sys.asked[h].pks && k !in sys.st.ss[h]
  }

  ghost predicate CreditOk(cfg: Config, sys: System) {
    forall k: Key | k != cfg.me :: Count(sys.st.unsigned, k) >= |Outstanding(sys, k)|
  }

  ghost predicate Inv(cfg: Config, sys: System)
    requires cfg.g.n > 1
  {
    && Shape(sys) && RequestsOk(cfg, sys) && KeysOk(cfg, sys) && TimersUnspent(cfg, sys)
    && RoundsOk(cfg, sys) && SubmissionsOk(cfg, sys) && CreditOk(cfg, sys)
  }

  // ---- every step keeps the invariant ----------------------------------------------

  lemma StartInv(cfg: Config)
    requires cfg.g.n > 1
    ensures Inv(cfg, START)
  {
    forall k: Key ensures Outstanding(START, k) == {} {
    }
  }

  /** Only the points of the asked signers enter the challenge. */
  lemma ChallengeFrame(g: Group, rs: map<Key, Krp>, rs': map<Key, Krp>, pks: seq<Key>, m: Digest)
    requires g.n > 1 && Elements(pks) <= rs.Keys && Elements(pks) <= rs'.Keys
    requires forall k | k in pks :: rs[k].r == rs'[k].r && rs[k].p == rs'[k].p
    ensures Challenge(g, rs, pks, m) == Challenge(g, rs', pks, m)
  {
    PointsTotalFrame(g, AllNoncePoints(rs), AllNoncePoints(rs'), pks);
    PointsTotalFrame(g, AllPublicKeys(rs), AllPublicKeys(rs'), pks);
  }

  lemma {:induction false} PointsTotalFrame(g: Group, a: map<Key, int>, b: map<Key, int>, pks: seq<Key>)
    requires g.n > 1 && Elements(pks) <= a.Keys && Elements(pks) <= b.Keys
    requires forall k | k in pks :: a[k] == b[k]
    ensures PointsTotal(g, a, pks) == PointsTotal(g, b, pks)
  {
    if pks != [] {
      assert Elements(pks[..|pks| - 1]) <= Elements(pks);
      PointsTotalFrame(g, a, b, pks[..|pks| - 1]);
    }
  }

  /** A round is not disturbed by a step that leaves its shares alone and only adds
      responders to its proposal. */
  lemma RoundFrame(cfg: Config, sys: System, next: System, h: Digest)
    requires cfg.g.n > 1 && h in sys.st.ss && RoundOk(cfg, sys, h)
    requires h in next.st.ss && next.st.ss[h] == sys.st.ss[h]
    requires h in next.asked && next.asked[h] == sys.asked[h]
    requires SubmittedHash(next, h) <==> SubmittedHash(sys, h)
    requires Extends(cfg, sys, next, sys.asked[h].nonce)
    ensures RoundOk(cfg, next, h)
  {
    var r := sys.asked[h];
    ChallengeFrame(cfg.g, sys.st.rs[r.nonce], next.st.rs[r.nonce], r.pks, h);
  }

  ghost predicate Extends(cfg: Config, sys: System, next: System, nonce: Digest) {
    && nonce in sys.st.rs && nonce in next.st.rs
    && sys.st.rs[nonce].Keys <= next.st.rs[nonce].Keys
    && (forall k | k in sys.st.rs[nonce] :: sys.st.rs[nonce][k] == next.st.rs[nonce][k])
    && (Unspent(cfg, sys.st.rs[nonce]) ==> Unspent(cfg, next.st.rs[nonce]))
  }

  /** The invariants that a step of phase R can only touch through `rs`. */
  lemma PhaseRFrame(cfg: Config, sys: System, next: System)
    requires cfg.g.n > 1 && RoundsOk(cfg, sys) && SubmissionsOk(cfg, sys) && CreditOk(cfg, sys)
    requires next.st.ss == sys.st.ss && next.asked == sys.asked && next.subs == sys.subs
    requires next.signed == sys.signed && next.st.unsigned == sys.st.unsigned
    requires forall h | h in sys.st.ss && h in sys.asked && sys.asked[h].nonce in sys.st.rs ::
               Extends(cfg, sys, next, sys.asked[h].nonce)
    ensures RoundsOk(cfg, next) && SubmissionsOk(cfg, next) && CreditOk(cfg, next)
  {
    forall h | h in next.st.ss ensures RoundOk(cfg, next, h) {
      assert RoundOk(cfg, sys, h);
      RoundFrame(cfg, sys, next, h);
    }
    forall k: Key ensures Outstanding(next, k) == Outstanding(sys, k) {
    }
  }

  lemma ProposeKeeps(cfg: Config, sys: System, tx: Tx)
    requires cfg.g.Valid() && Inv(cfg, sys) && tx.signers == [] && NonceHash(TxHash(tx)) !in sys.used
    ensures Inv(cfg, DoPropose(sys, tx))
  {
    ProposeShape(cfg, sys, tx);
    ProposeNonces(cfg, sys, tx);
    PhaseRFrame(cfg, sys, DoPropose(sys, tx));
  }

  lemma ProposeShape(cfg: Config, sys: System, tx: Tx)
    requires cfg.g.n > 1 && Shape(sys) && RequestsOk(cfg, sys) && tx.signers == [] && NonceHash(TxHash(tx)) !in sys.used
    ensures Shape(DoPropose(sys, tx)) && RequestsOk(cfg, DoPropose(sys, tx))
  {
  }

  lemma ProposeNonces(cfg: Config, sys: System, tx: Tx)
    requires cfg.g.n > 1 && Shape(sys) && KeysOk(cfg, sys) && TimersUnspent(cfg, sys)
    requires NonceHash(TxHash(tx)) !in sys.used
    ensures var next := DoPropose(sys, tx);
            KeysOk(cfg, next) && TimersUnspent(cfg, next) && forall h | h in sys.st.rs :: Extends(cfg, sys, next, h)
  {
    var nonce := NonceHash(TxHash(tx));
    var next := DoPropose(sys, tx);
    assert nonce !in sys.st.txs;
    assert next.st.rs == sys.st.rs[nonce := map[]];
    assert NonceOk(cfg, map[]);
  }

  lemma OwnNonceKeeps(cfg: Config, sys: System, nonce: Digest, own: Option<int>)
    requires cfg.g.Valid() && Inv(cfg, sys) && nonce in sys.opening
    ensures Inv(cfg, DoOwnNonce(cfg, sys, nonce, own))
  {
    OwnNonceShape(cfg, sys, nonce, own);
    OwnNonceNonces(cfg, sys, nonce, own);
    OwnNonceOnlyTouchesNonces(cfg, sys.st, nonce, OwnKrp(cfg, own));
    PhaseRFrame(cfg, sys, DoOwnNonce(cfg, sys, nonce, own));
  }

  lemma OwnNonceOnlyTouchesNonces(cfg: Config, st: State, nonce: Digest, own: Option<Krp>)
    ensures var st' := RecordOwn(cfg, st, nonce, own).0; st' == st.(rs := st'.rs)
  {
  }

  lemma OwnNonceShape(cfg: Config, sys: System, nonce: Digest, own: Option<int>)
    requires cfg.g.n > 1 && Shape(sys) && RequestsOk(cfg, sys) && nonce in sys.opening
    ensures Shape(DoOwnNonce(cfg, sys, nonce, own)) && RequestsOk(cfg, DoOwnNonce(cfg, sys, nonce, own))
  {
  }

  lemma OwnNonceNonces(cfg: Config, sys: System, nonce: Digest, own: Option<int>)
    requires cfg.g.n > 1 && Shape(sys) && KeysOk(cfg, sys) && TimersUnspent(cfg, sys) && nonce in sys.opening
    ensures var next := DoOwnNonce(cfg, sys, nonce, own);
            KeysOk(cfg, next) && TimersUnspent(cfg, next) && forall h | h in sys.st.rs :: Extends(cfg, sys, next, h)
  {
    var next := DoOwnNonce(cfg, sys, nonce, own);
    if own.Some? && nonce in sys.st.rs {
      var krp := HonestKrp(cfg, cfg.me, own.value);
      CongResidue(own.value, cfg.g.n);
      assert next.st.rs == sys.st.rs[nonce := map[cfg.me := krp]];
      assert Unspent(cfg, map[cfg.me := krp]) && NonceOk(cfg, map[cfg.me := krp]);
    }
  }

  lemma AnswerRKeeps(cfg: Config, sys: System, nonce: Digest, key: Key, k0: int)
    requires cfg.g.Valid() && Inv(cfg, sys) && nonce !in sys.opening
    ensures Inv(cfg, DoAnswerR(cfg, sys, nonce, key, k0))
  {
    AnswerROnlyTouchesNonces(sys.st, nonce, key, HonestKrp(cfg, key, k0));
    AnswerRNonces(cfg, sys, nonce, key, k0);
    PhaseRFrame(cfg, sys, DoAnswerR(cfg, sys, nonce, key, k0));
  }

  lemma AnswerROnlyTouchesNonces(st: State, nonce: Digest, key: Key, krp: Krp)
    ensures var st' := AnswerR(st, nonce, key, true, krp).0; st' == st.(rs := st'.rs)
  {
  }

  lemma AnswerRNonces(cfg: Config, sys: System, nonce: Digest, key: Key, k0: int)
    requires cfg.g.n > 1 && Shape(sys) && KeysOk(cfg, sys) && TimersUnspent(cfg, sys) && nonce !in sys.opening
    ensures var next := DoAnswerR(cfg, sys, nonce, key, k0);
            && Shape(next) && KeysOk(cfg, next) && TimersUnspent(cfg, next)
            && forall h | h in sys.st.rs :: Extends(cfg, sys, next, h)
  {
    var krp := HonestKrp(cfg, key, k0);
    var next := DoAnswerR(cfg, sys, nonce, key, k0);
    if next.st != sys.st {
      assert next.st.rs == sys.st.rs[nonce := sys.st.rs[nonce][key := krp]];
      CongResidue(k0, cfg.g.n);
      forall h | h in sys.st.rs ensures Extends(cfg, sys, next, h) && NonceOk(cfg, next.st.rs[h]) {
        assert NonceOk(cfg, sys.st.rs[h]);
      }
    }
  }

  lemma ResetKeeps(cfg: Config, sys: System)
    requires cfg.g.Valid() && Inv(cfg, sys)
    ensures Inv(cfg, sys.(st := Reset(sys.st)))
  {
    var next := sys.(st := Reset(sys.st));
    forall k: Key | k != cfg.me ensures Count(next.st.unsigned, k) >= |Outstanding(next, k)| {
      assert Outstanding(next, k) == {};
    }
  }

  // ---- opening the S phase -------------------------------------------------------

  /** How often a key stands in the arbiter list. */
  function Occurrences(arbiters: seq<Key>, k: Key): nat {
    if arbiters == [] then 0
    else Occurrences(arbiters[..|arbiters| - 1], k) + if arbiters[|arbiters| - 1] == k then 1 else 0
  }

  lemma {:induction false} CreditExact(unsigned: map<Key, nat>, arbiters: seq<Key>, responders: set<Key>, me: Key, k: Key)
    requires k != ""
    ensures var missing, owes := if k in responders then 0 else 1, if k == me then 0 else 1;
            Count(Credit(unsigned, arbiters, responders, me), k)
              == Count(unsigned, k) + Occurrences(arbiters, k) * (missing + owes)
  {
    if arbiters != [] {
      CreditExact(unsigned, arbiters[..|arbiters| - 1], responders, me, k);
    }
  }

  lemma {:induction false} Listed(arbiters: seq<Key>, k: Key)
    ensures Occurrences(arbiters, k) >= 1 <==> k in arbiters
  {
    if arbiters != [] {
      Listed(arbiters[..|arbiters| - 1], k);
      assert arbiters == arbiters[..|arbiters| - 1] + [arbiters[|arbiters| - 1]];
    }
  }

  /** The proposer comes first in the order, so it is always chosen. */
  lemma ProposerIsChosen(me: Key, order: seq<Key>, responders: set<Key>, unsigned: map<Key, nat>, min: nat)
    requires IntendedOrder(order, responders, unsigned, me) && me in responders
    ensures me in Chosen(order, min)
  {
    assert me in Elements(order);
    var i :| 0 <= i < |order| && order[i] == me;
    if i > 0 {
      assert Rank(unsigned, me, order[0]) <= Rank(unsigned, me, order[i]);
    }
    assert order[0] == me;
    assert Chosen(order, min)[0] == me;
  }

  // ---- a complete set of honest shares -----------------------------------------

  ghost function Restrict(points: map<Key, int>, keys: set<Key>): map<Key, int>
    requires keys <= points.Keys
  {
    map k | k in keys :: points[k]
  }

  /** Points added in list order, without repetition, are the points of the set. */
  lemma {:induction false} ListTotalIsSetSum(g: Group, points: map<Key, int>, pks: seq<Key>)
    requires g.n > 1 && Distinct(pks) && Elements(pks) <= points.Keys
    ensures PointsTotal(g, points, pks) == Residue(MapSum(Restrict(points, Elements(pks))), g.n)
  {
    if pks == [] {
      assert Restrict(points, Elements(pks)) == map[];
      ResidueOfResidue(0, g.n);
    } else {
      var init, last := LastOf(pks);
      ListTotalIsSetSum(g, points, init);
      var before := RestrictSnoc(points, init, last);
      LastPoint(g, points, init, last);
      MapSumInsert(before, last, points[last]);
      AddPoint(PointsTotal(g, points, pks), PointsTotal(g, points, init), points[last],
               MapSum(Restrict(points, Elements(pks))), MapSum(before), g.n);
    }
  }

  lemma LastOf(pks: seq<Key>) returns (init: seq<Key>, last: Key)
    requires pks != [] && Distinct(pks)
    ensures pks == init + [last] && |init| == |pks| - 1 && Distinct(init) && Elements(init) <= Elements(pks)
  {
    init, last := pks[..|pks| - 1], pks[|pks| - 1];
  }

  lemma LastPoint(g: Group, points: map<Key, int>, init: seq<Key>, last: Key)
    requires g.n > 1 && Elements(init + [last]) <= points.Keys && Elements(init) <= points.Keys && last in points
    ensures PointsTotal(g, points, init + [last]) == Residue(PointsTotal(g, points, init) + points[last], g.n)
  {
    assert (init + [last])[..|init|] == init;
  }

  lemma RestrictSnoc(points: map<Key, int>, init: seq<Key>, last: Key) returns (before: map<Key, int>)
    requires Distinct(init + [last]) && Elements(init + [last]) <= points.Keys
    ensures Elements(init) <= points.Keys && Distinct(init) && last in points
    ensures before == Restrict(points, Elements(init)) && last !in before
    ensures Restrict(points, Elements(init + [last])) == before[last := points[last]]
  {
    ElementsSnoc(init, last);
    assert (init + [last])[|init|] == last;
    assert forall i | 0 <= i < |init| :: (init + [last])[i] == init[i];
    before := Restrict(points, Elements(init));
  }

  lemma AddPoint(total: int, before: int, p: int, sum: int, sumBefore: int, n: int)
    requires n > 0
    requires before == Residue(sumBefore, n) && total == Residue(before + p, n) && sum == sumBefore + p
    ensures total == Residue(sum, n)
  {
    ResidueAdd(sumBefore, p, n);
  }

  lemma ChallengeOfSet(g: Group, rs: map<Key, Krp>, pks: seq<Key>, m: Digest)
    requires g.n > 1 && Distinct(pks) && Elements(pks) <= rs.Keys
    ensures Challenge(g, rs, pks, m) == g.H(g.X(RSum(g, rs, Elements(pks))), PSum(g, rs, Elements(pks)), m)
  {
    ListTotalIsSetSum(g, AllNoncePoints(rs), pks);
    ListTotalIsSetSum(g, AllPublicKeys(rs), pks);
    assert NoncePoints(rs, Elements(pks)) == Restrict(AllNoncePoints(rs), Elements(pks));
    assert PublicKeys(rs, Elements(pks)) == Restrict(AllPublicKeys(rs), Elements(pks));
  }

  /** Shares e*d add up to e times the sum of the public keys. */
  lemma {:induction false} SharesAddUp(ss: map<Key, int>, ps: map<Key, int>, secret: Key -> int, e: int, n: int)
    requires n > 0 && ss.Keys == ps.Keys
    requires forall k | k in ss :: ss[k] == e * secret(k) && ps[k] == Residue(secret(k), n)
    ensures Cong(MapSum(ss), e * MapSum(ps), n)
    decreases |ss|
  {
    if ss == map[] {
      assert ps == map[];
      CongRefl(0, n);
    } else {
      var k :| k in ss;
      SharesAddUp(ss - {k}, ps - {k}, secret, e, n);
      var ssum := SumWithout(ss, k);
      var psum := SumWithout(ps, k);
      AddShare(ss[k], ssum, MapSum(ss), secret(k), ps[k], psum, MapSum(ps), e, n);
    }
  }

  lemma AddShare(s: int, ssum: int, stotal: int, d: int, p: int, psum: int, ptotal: int, e: int, n: int)
    requires n > 0 && s == e * d && p == Residue(d, n)
    requires stotal == s + ssum && ptotal == p + psum && Cong(ssum, e * psum, n)
    ensures Cong(stotal, e * ptotal, n)
  {
    CongResidue(d, n);
    CongMul(e, p, d, n);
    CongRefl(0, n);
    CongAdd(e * p, e * d, 0, 0, n);
    CongAdd(s, e * p, ssum, e * psum, n);
    assert e * (p + psum) == e * p + e * psum;
  }

  /** What a set of honest shares aggregates to, whoever they are from: it verifies, for
      the transaction of the request and under the signers' joint key, exactly if the
      challenge of the request serves for this key. */
  lemma AggregateServesIff(cfg: Config, r: Request, rs: map<Key, Krp>, ss: map<Key, int>, h: Digest)
    requires cfg.g.Valid() && ss.Keys <= rs.Keys && Unspent(cfg, rs) && NonceOk(cfg, rs)
    requires forall k | k in ss :: ss[k] == r.e * cfg.secret(k)
    ensures var sub := Aggregated(cfg, rs, ss, h);
            && sub.p == JointKey(cfg, ss.Keys)
            && (sub.rsum != 0 ==> (Verified(cfg, sub) <==> ChallengeServes(cfg, r, sub)))
  {
    var g, sub := cfg.g, Aggregated(cfg, rs, ss, h);
    var ps, target := PublicKeys(rs, ss.Keys), g.ChallengeTimesKey(g.X(sub.rsum), sub.p, h);
    SharesAddUp(ss, ps, cfg.secret, r.e, g.n);
    CongResidue(MapSum(ps), g.n);
    CongMul(r.e, sub.p, MapSum(ps), g.n);
    SharesServe(MapSum(ss), r.e * sub.p, r.e * MapSum(ps), target, g.n);
    AggregateVerifiesIff(g, rs, ss, h);
    JointKeyIsSum(cfg, rs, ss.Keys);
  }

  ghost function Aggregated(cfg: Config, rs: map<Key, Krp>, ss: map<Key, int>, h: Digest): Submission
    requires cfg.g.n > 1 && ss.Keys <= rs.Keys
  {
    var rsum := RSum(cfg.g, rs, ss.Keys);
    Submission(h, rsum, Residue(MapSum(Terms(cfg.g, rsum, rs, ss)), cfg.g.n), PSum(cfg.g, rs, ss.Keys))
  }

  lemma SharesServe(shares: int, ep: int, eps: int, target: int, n: int)
    requires n > 0 && Cong(shares, eps, n) && Cong(ep, eps, n)
    ensures Cong(shares, target, n) <==> Cong(ep, target, n)
  {
    CongRefl(0, n);
    CongAdd(ep, eps, 0, 0, n);
    CongAdd(shares, eps, 0, 0, n);
    if Cong(shares, target, n) {
      CongTrans(ep, eps, shares, n);
      CongTrans(ep, shares, target, n);
    }
    if Cong(ep, target, n) {
      CongTrans(shares, eps, ep, n);
      CongTrans(shares, ep, target, n);
    }
  }

  /** When all asked signers have answered, and they alone, the aggregate is a signature
      of the request's transaction under their joint key, unless their nonces cancel. */
  lemma AggregateCorrect(cfg: Config, r: Request, rs: map<Key, Krp>, ss: map<Key, int>, h: Digest)
    requires cfg.g.Valid() && Distinct(r.pks) && RoundFits(cfg, r, rs, ss, h)
    requires ss.Keys == Elements(r.pks) && Unspent(cfg, rs) && NonceOk(cfg, rs)
    ensures var sub := Aggregated(cfg, rs, ss, h);
            sub.p == JointKey(cfg, Elements(r.pks)) && (sub.rsum != 0 ==> Verified(cfg, sub))
  {
    AggregateServesIff(cfg, r, rs, ss, h);
    ChallengeOfSet(cfg.g, rs, r.pks, h);
    var sub := Aggregated(cfg, rs, ss, h);
    CongRefl(r.e * sub.p, cfg.g.n);
  }

  lemma JointKeyIsSum(cfg: Config, rs: map<Key, Krp>, keys: set<Key>)
    requires cfg.g.n > 1 && keys <= rs.Keys && NonceOk(cfg, rs)
    ensures PSum(cfg.g, rs, keys) == JointKey(cfg, keys)
  {
    var n, ps, ds := cfg.g.n, PublicKeys(rs, keys), map k | k in keys :: cfg.secret(k);
    forall k | k in ps ensures Cong(ps[k], ds[k], n) {
      CongResidue(ds[k], n);
    }
    MapSumCong(ps, ds, n);
    CongSameResidue(MapSum(ps), MapSum(ds), n);
  }

  // ---- the timer step ------------------------------------------------------------

  /** The timer began a round for request r ... */
  ghost predicate Opened(cfg: Config, sys: System, next: System, nonce: Digest, arbiters: seq<Key>, r: Request)
    requires cfg.g.n > 1 && nonce in sys.st.rs
  {
    var hash := TxHash(r.tx);
    && next.st.rs == sys.st.rs && next.subs == sys.subs && next.used == sys.used && next.st.held == sys.st.held
    && next.timers == sys.timers - {nonce} && next.opening == sys.opening && next.signed == sys.signed
    && hash !in sys.asked && next.asked == sys.asked[hash := r]
    && hash !in sys.st.txs && next.st.txs == sys.st.txs[hash := r.tx]
    && next.st.ss == sys.st.ss[hash := map[cfg.me := r.e * cfg.secret(cfg.me)]]
    && next.st.unsigned == Credit(sys.st.unsigned, arbiters, sys.st.rs[nonce].Keys, cfg.me)
    && RequestOk(cfg, r, hash) && r.nonce == nonce
    && Elements(r.pks) <= sys.st.rs[nonce].Keys && (forall k | k in r.pks :: k != "" && k in arbiters)
    && r.e == Challenge(cfg.g, sys.st.rs[nonce], r.pks, hash)
  }

  /** ... or it did not, and gave credit or not. */
  ghost predicate NotOpened(cfg: Config, sys: System, next: System, nonce: Digest, arbiters: seq<Key>) {
    && next == sys.(timers := sys.timers - {nonce}, log := next.log, st := sys.st.(unsigned := next.st.unsigned))
    && (next.st.unsigned != sys.st.unsigned ==>
          nonce in sys.st.rs && next.st.unsigned == Credit(sys.st.unsigned, arbiters, sys.st.rs[nonce].Keys, cfg.me))
  }

  lemma TimerOutcome(cfg: Config, sys: System, nonce: Digest, arbiters: seq<Key>, min: nat, order: seq<Key>)
    returns (next: System, began: bool, r: Request)
    requires cfg.g.n > 1 && Inv(cfg, sys) && Enabled(cfg, sys, TimerFired(nonce, arbiters, min, order))
    ensures next == DoTimer(cfg, sys, nonce, arbiters, min, order)
    ensures if began then nonce in sys.st.rs && Opened(cfg, sys, next, nonce, arbiters, r)
            else NotOpened(cfg, sys, next, nonce, arbiters)
  {
    next := DoTimer(cfg, sys, nonce, arbiters, min, order);
    began := nonce in sys.st.txs && nonce in sys.st.rs && |sys.st.rs[nonce]| >= min;
    if began {
      assert sys.st.rs[nonce].Keys == Elements(order) && |sys.st.rs[nonce].Keys| == |sys.st.rs[nonce]|;
      r := NewRequest(cfg, sys, nonce, arbiters, min, order);
    } else {
      r := Request(nonce, Tx(0, []), [], 0);
    }
  }

  /** The request of a new round is well formed and its transaction is new. */
  lemma NewRequest(cfg: Config, sys: System, nonce: Digest, arbiters: seq<Key>, min: nat, order: seq<Key>)
    returns (r: Request)
    requires cfg.g.n > 1 && Shape(sys) && RequestsOk(cfg, sys) && RoundsOk(cfg, sys)
    requires Enabled(cfg, sys, TimerFired(nonce, arbiters, min, order)) && nonce in sys.st.txs && nonce in sys.st.rs
    ensures r == BuildRequest(cfg, sys.st, nonce, arbiters, min, order)
    ensures RequestOk(cfg, r, TxHash(r.tx)) && r.nonce == nonce && (forall k | k in r.pks :: k != "" && k in arbiters)
    ensures TxHash(r.tx) !in sys.asked && TxHash(r.tx) !in sys.st.txs
  {
    r := BuildRequest(cfg, sys.st, nonce, arbiters, min, order);
    PickKeysSound(arbiters, Elements(Chosen(order, min)));
    assert sys.st.txs[nonce] == Tx(sys.st.txs[nonce].base, []);
    NotAskedBefore(cfg, sys, nonce, TxHash(r.tx));
  }

  lemma NotAskedBefore(cfg: Config, sys: System, nonce: Digest, h: Digest)
    requires cfg.g.n > 1 && Shape(sys) && RequestsOk(cfg, sys) && RoundsOk(cfg, sys)
    requires nonce in sys.timers && h.TxHash? && nonce == NonceHash(TxHash(Tx(h.tx.base, [])))
    ensures h !in sys.asked && h !in sys.st.txs
  {
    forall x | x in sys.asked ensures x != h {
      assert RequestOk(cfg, sys.asked[x], x);
    }
    forall x | x in sys.st.ss ensures x != h {
      assert RoundOk(cfg, sys, x);
    }
  }

  lemma OpenedRounds(cfg: Config, sys: System, next: System, nonce: Digest, arbiters: seq<Key>, r: Request)
    requires cfg.g.n > 1 && Inv(cfg, sys) && nonce in sys.timers && nonce in sys.st.rs
    requires Opened(cfg, sys, next, nonce, arbiters, r)
    ensures RoundsOk(cfg, next)
  {
    forall h | h in next.st.ss ensures RoundOk(cfg, next, h) {
      if h == TxHash(r.tx) {
        NewRound(cfg, sys, next, nonce, arbiters, r);
      } else {
        assert RoundOk(cfg, sys, h);
        RoundFrame(cfg, sys, next, h);
      }
    }
  }

  lemma NewRound(cfg: Config, sys: System, next: System, nonce: Digest, arbiters: seq<Key>, r: Request)
    requires cfg.g.n > 1 && TimersUnspent(cfg, sys) && SubmissionsOk(cfg, sys) && nonce in sys.timers
    requires nonce in sys.st.rs && Opened(cfg, sys, next, nonce, arbiters, r)
    ensures RoundOk(cfg, next, TxHash(r.tx))
  {
    var h := TxHash(r.tx);
    assert SubmittedHash(next, h) ==> h in sys.asked;
    assert |map[cfg.me := r.e * cfg.secret(cfg.me)]| == 1;
  }

  lemma OpenedShape(cfg: Config, sys: System, next: System, nonce: Digest, arbiters: seq<Key>, r: Request)
    requires cfg.g.n > 1 && Shape(sys) && TimersUnspent(cfg, sys)
    requires nonce in sys.st.rs && nonce in sys.timers && Opened(cfg, sys, next, nonce, arbiters, r)
    ensures Shape(next)
  {
  }

  lemma OpenedNonces(cfg: Config, sys: System, next: System)
    requires cfg.g.n > 1 && KeysOk(cfg, sys) && TimersUnspent(cfg, sys)
    requires next.st.rs == sys.st.rs && next.timers <= sys.timers
    ensures KeysOk(cfg, next) && TimersUnspent(cfg, next)
  {
  }

  lemma OpenedRequests(cfg: Config, sys: System, next: System, nonce: Digest, arbiters: seq<Key>, r: Request)
    requires cfg.g.n > 1 && Shape(sys) && RequestsOk(cfg, sys) && nonce in sys.timers
    requires nonce in sys.st.rs && Opened(cfg, sys, next, nonce, arbiters, r)
    ensures RequestsOk(cfg, next)
  {
    RequestsGrow(cfg, sys, next, r);
  }

  lemma RequestsGrow(cfg: Config, sys: System, next: System, r: Request)
    requires RequestsOk(cfg, sys) && RequestOk(cfg, r, TxHash(r.tx)) && TxHash(r.tx) !in sys.asked
    requires next.asked == sys.asked[TxHash(r.tx) := r] && next.used == sys.used && next.opening == sys.opening
    requires next.timers == sys.timers - {r.nonce} && r.nonce in sys.timers && r.nonce in sys.used - sys.opening
    ensures RequestsOk(cfg, next)
  {
  }

  lemma OpenedSubmissions(cfg: Config, sys: System, next: System, nonce: Digest, arbiters: seq<Key>, r: Request)
    requires cfg.g.n > 1 && SubmissionsOk(cfg, sys)
    requires nonce in sys.st.rs && Opened(cfg, sys, next, nonce, arbiters, r)
    ensures SubmissionsOk(cfg, next)
  {
  }

  lemma OpenedCredit(cfg: Config, sys: System, next: System, nonce: Digest, arbiters: seq<Key>, r: Request)
    requires cfg.g.n > 1 && CreditOk(cfg, sys) && nonce in sys.st.rs && Opened(cfg, sys, next, nonce, arbiters, r)
    ensures CreditOk(cfg, next)
  {
    forall k: Key | k != cfg.me ensures Count(next.st.unsigned, k) >= |Outstanding(next, k)| {
      assert Count(sys.st.unsigned, k) >= |Outstanding(sys, k)|;
      if k in r.pks {
        CreditExact(sys.st.unsigned, arbiters, sys.st.rs[nonce].Keys, cfg.me, k);
        Listed(arbiters, k);
        assert Outstanding(next, k) <= Outstanding(sys, k) + {TxHash(r.tx)};
        SubsetCardinality(Outstanding(next, k), Outstanding(sys, k) + {TxHash(r.tx)});
      } else {
        CreditNeverShrinks(sys.st.unsigned, arbiters, sys.st.rs[nonce].Keys, cfg.me, k);
        assert Outstanding(next, k) <= Outstanding(sys, k);
        SubsetCardinality(Outstanding(next, k), Outstanding(sys, k));
      }
    }
  }

  lemma {:induction false} CreditNeverShrinks(unsigned: map<Key, nat>, arbiters: seq<Key>, responders: set<Key>,
                                              me: Key, k: Key)
    ensures Count(Credit(unsigned, arbiters, responders, me), k) >= Count(unsigned, k)
  {
    if arbiters != [] {
      CreditNeverShrinks(unsigned, arbiters[..|arbiters| - 1], responders, me, k);
    }
  }

  lemma NotOpenedKeeps(cfg: Config, sys: System, next: System, nonce: Digest, arbiters: seq<Key>)
    requires cfg.g.n > 1 && Inv(cfg, sys) && NotOpened(cfg, sys, next, nonce, arbiters)
    ensures Inv(cfg, next)
  {
    forall h | h in next.st.ss ensures RoundOk(cfg, next, h) {
      assert RoundOk(cfg, sys, h);
      RoundFrame(cfg, sys, next, h);
    }
    forall k: Key | k != cfg.me ensures Count(next.st.unsigned, k) >= |Outstanding(next, k)| {
      assert Outstanding(next, k) == Outstanding(sys, k);
      if next.st.unsigned != sys.st.unsigned {
        CreditNeverShrinks(sys.st.unsigned, arbiters, sys.st.rs[nonce].Keys, cfg.me, k);
      }
    }
  }

  lemma TimerKeeps(cfg: Config, sys: System, nonce: Digest, arbiters: seq<Key>, min: nat, order: seq<Key>)
    requires cfg.g.n > 1 && Inv(cfg, sys) && Enabled(cfg, sys, TimerFired(nonce, arbiters, min, order))
    ensures Inv(cfg, DoTimer(cfg, sys, nonce, arbiters, min, order))
  {
    var next, began, r := TimerOutcome(cfg, sys, nonce, arbiters, min, order);
    if began {
      OpenedShape(cfg, sys, next, nonce, arbiters, r);
      OpenedNonces(cfg, sys, next);
      OpenedRequests(cfg, sys, next, nonce, arbiters, r);
      OpenedSubmissions(cfg, sys, next, nonce, arbiters, r);
      OpenedRounds(cfg, sys, next, nonce, arbiters, r);
      OpenedCredit(cfg, sys, next, nonce, arbiters, r);
    } else {
      NotOpenedKeeps(cfg, sys, next, nonce, arbiters);
    }
  }

  // ---- the S-answer step ------------------------------------------------------------

  /** A share was taken: the signer pays with one unit of credit, and the last share
      of a round is followed by the submission. */
  ghost predicate ShareTaken(cfg: Config, sys: System, next: System, h: Digest, key: Key)
    requires cfg.g.n > 1 && h in sys.st.ss && h in sys.asked && sys.asked[h].nonce in sys.st.rs
  {
    var r := sys.asked[h];
    var shares := sys.st.ss[h][key := r.e * cfg.secret(key)];
    && key in r.pks && key !in sys.st.ss[h] && Count(sys.st.unsigned, key) >= 1
    && next.timers == sys.timers && next.opening == sys.opening && next.used == sys.used && next.asked == sys.asked
    && next.st.held == sys.st.held && next.st.txs == sys.st.txs
    && next.st.ss == sys.st.ss[h := shares]
    && next.st.unsigned == sys.st.unsigned[key := sys.st.unsigned[key] - 1]
    && if |shares| == |r.pks| then LastShare(cfg, sys, next, h, shares)
       else next.st.rs == sys.st.rs && next.subs == sys.subs && next.signed == sys.signed
  }

  ghost predicate LastShare(cfg: Config, sys: System, next: System, h: Digest, shares: map<Key, int>)
    requires cfg.g.n > 1 && h in sys.asked && sys.asked[h].nonce in sys.st.rs
  {
    var r := sys.asked[h];
    && |next.subs| == |sys.subs| + 1 && next.subs[..|sys.subs|] == sys.subs
    && next.signed == sys.signed[h := shares.Keys]
    && next.subs[|sys.subs|].hash == h && SubmissionOk(cfg, r, shares.Keys, next.subs[|sys.subs|])
    && next.st.rs.Keys == sys.st.rs.Keys
    && (forall n | n in sys.st.rs && n != r.nonce :: next.st.rs[n] == sys.st.rs[n])
    && SamePoints(sys.st.rs[r.nonce], next.st.rs[r.nonce])
  }

  ghost predicate SamePoints(rs: map<Key, Krp>, rs': map<Key, Krp>) {
    rs.Keys == rs'.Keys && forall k | k in rs :: rs[k].r == rs'[k].r && rs[k].p == rs'[k].p
  }

  lemma AnswerSOutcome(cfg: Config, sys: System, h: Digest, key: Key) returns (next: System, taken: bool)
    requires cfg.g.Valid() && Inv(cfg, sys) && h in sys.asked && key in sys.asked[h].pks
    ensures next == DoAnswerS(cfg, sys, h, key)
    ensures if taken then h in sys.st.ss && sys.asked[h].nonce in sys.st.rs && ShareTaken(cfg, sys, next, h, key)
            else next == sys
    ensures taken <==> h in sys.st.ss && key !in sys.st.ss[h]
    ensures taken <==> Accepts(sys, h, key)
  {
    next := DoAnswerS(cfg, sys, h, key);
    taken := h in sys.st.ss && key !in sys.st.ss[h];
    if taken {
      assert RoundOk(cfg, sys, h);
      assert RequestOk(cfg, sys.asked[h], h);
      InCredit(cfg, sys, h, key);
      TakeShare(cfg, sys, h, key);
    }
  }

  /** The exit that leaves the mutex locked is never taken for an asked signer. */
  lemma InCredit(cfg: Config, sys: System, h: Digest, key: Key)
    requires cfg.g.n > 1 && RoundsOk(cfg, sys) && CreditOk(cfg, sys)
    requires h in sys.st.ss && h in sys.asked && key in sys.asked[h].pks && key !in sys.st.ss[h]
    ensures Count(sys.st.unsigned, key) >= 1
  {
    assert key != cfg.me by {
      assert RoundOk(cfg, sys, h);
    }
    OneOutstanding(sys, h, key);
  }

  lemma OneOutstanding(sys: System, h: Digest, key: Key)
    requires h in sys.st.ss && h in sys.asked && key in sys.asked[h].pks && key !in sys.st.ss[h]
    ensures |Outstanding(sys, key)| >= 1
  {
    assert h in Outstanding(sys, key);
    SubsetCardinality({h}, Outstanding(sys, key));
  }

  lemma TakeShare(cfg: Config, sys: System, h: Digest, key: Key)
    requires cfg.g.Valid() && Shape(sys) && KeysOk(cfg, sys)
    requires h in sys.st.ss && RoundOk(cfg, sys, h) && RequestOk(cfg, sys.asked[h], h)
    requires key in sys.asked[h].pks && key !in sys.st.ss[h] && Count(sys.st.unsigned, key) >= 1
    ensures ShareTaken(cfg, sys, DoAnswerS(cfg, sys, h, key), h, key)
  {
    var r, rs := sys.asked[h], sys.st.rs[sys.asked[h].nonce];
    var shares := sys.st.ss[h][key := r.e * cfg.secret(key)];
    var st' := sys.st.(unsigned := sys.st.unsigned[key := sys.st.unsigned[key] - 1], ss := sys.st.ss[h := shares]);
    if |shares| == |r.pks| {
      FitsOfCount(cfg.me, r.pks, sys.st.ss[h], shares, key);
      AggregateComplete(cfg, st', r, rs, shares, h);
      var (st2, o) := Aggregate(cfg, st', r.nonce, r.tx, shares, shares.Keys);
      Applied(cfg, sys, h, key, shares, st', st2, o);
      TakenLast(cfg, sys, DoAnswerS(cfg, sys, h, key), h, key, shares, st2, o);
    } else {
      Applied(cfg, sys, h, key, shares, st', st', Recorded);
    }
  }

  /** One share more, and there are as many as asked keys. */
  lemma FitsOfCount(me: Key, pks: seq<Key>, ss: map<Key, int>, shares: map<Key, int>, key: Key)
    requires me in ss && key !in ss && key in pks && ss.Keys <= Elements(pks) + {me}
    requires shares.Keys == ss.Keys + {key} && |shares| == |pks|
    ensures SignersFit(me, pks, shares.Keys) && !Full(pks, ss)
  {
    OneShareMore(ss, shares, key);
    assert key in Elements(pks);
    assert |shares.Keys| == |shares|;
    SubsetCardinality({me, key}, shares.Keys);
  }

  lemma OneShareMore(ss: map<Key, int>, shares: map<Key, int>, key: Key)
    requires key !in ss && shares.Keys == ss.Keys + {key}
    ensures |shares| == |ss| + 1
  {
    assert |shares| == |shares.Keys| && |ss| == |ss.Keys|;
  }

  /** What the handler returns is what the step records. */
  lemma Applied(cfg: Config, sys: System, h: Digest, key: Key, shares: map<Key, int>, st': State, st2: State, o: Outcome)
    requires cfg.g.n > 1 && h in sys.st.ss && h in sys.st.txs && h in sys.asked && !sys.st.held
    requires h == TxHash(sys.asked[h].tx) && sys.st.txs[h] == sys.asked[h].tx
    requires key !in sys.st.ss[h] && Count(sys.st.unsigned, key) >= 1
    requires shares == sys.st.ss[h][key := sys.asked[h].e * cfg.secret(key)]
    requires st' == sys.st.(unsigned := sys.st.unsigned[key := sys.st.unsigned[key] - 1], ss := sys.st.ss[h := shares])
    requires (st2, o) == if |shares| != |sys.asked[h].pks| then (st', Recorded)
                         else Aggregate(cfg, st', sys.asked[h].nonce, sys.asked[h].tx, shares, shares.Keys)
    ensures var next := DoAnswerS(cfg, sys, h, key);
            && next.st == st2 && next.subs == (if o.Submitted? then sys.subs + [o.submission] else sys.subs)
            && next.signed == (if o.Submitted? then sys.signed[h := shares.Keys] else sys.signed)
            && next.timers == sys.timers && next.opening == sys.opening && next.used == sys.used
            && next.asked == sys.asked
  {
    var r := sys.asked[h];
    assert WouldVisit(sys, h, key) == shares.Keys;
    ReceiveTakes(cfg, sys.st, HonestShare(cfg, r, key), shares.Keys, h, shares, st');
  }

  lemma TakenLast(cfg: Config, sys: System, next: System, h: Digest, key: Key, shares: map<Key, int>, st2: State,
                  o: Outcome)
    requires cfg.g.n > 1 && h in sys.st.ss && h in sys.asked && sys.asked[h].nonce in sys.st.rs
    requires key in sys.asked[h].pks && key !in sys.st.ss[h] && Count(sys.st.unsigned, key) >= 1
    requires shares == sys.st.ss[h][key := sys.asked[h].e * cfg.secret(key)] && |shares| == |sys.asked[h].pks|
    requires next.st == st2 && o.Submitted? && next.subs == sys.subs + [o.submission]
    requires next.signed == sys.signed[h := shares.Keys]
    requires next.timers == sys.timers && next.opening == sys.opening && next.used == sys.used && next.asked == sys.asked
    requires o.submission.hash == h && SubmissionOk(cfg, sys.asked[h], shares.Keys, o.submission)
    requires var nonce := sys.asked[h].nonce;
             && nonce in st2.rs && SamePoints(sys.st.rs[nonce], st2.rs[nonce])
             && st2 == sys.st.(unsigned := sys.st.unsigned[key := sys.st.unsigned[key] - 1],
                               ss := sys.st.ss[h := shares], rs := sys.st.rs[nonce := st2.rs[nonce]])
    ensures ShareTaken(cfg, sys, next, h, key)
  {
  }

  lemma ReceiveTakes(cfg: Config, st: State, a: AnswerS, visited: set<Key>, h: Digest, shares: map<Key, int>, st': State)
    requires cfg.g.n > 1 && h == TxHash(a.tx) && h in st.txs && st.txs[h] == a.tx && h in st.ss && !st.held
    requires a.key !in st.ss[h] && Count(st.unsigned, a.key) >= 1
    requires shares == st.ss[h][a.key := a.s]
    requires st' == st.(unsigned := st.unsigned[a.key := st.unsigned[a.key] - 1], ss := st.ss[h := shares])
    ensures ReceiveS(cfg, st, a, true, visited)
              == if |shares| != |a.pks| then (st', Recorded) else Aggregate(cfg, st', a.nonce, a.tx, shares, visited)
  {
  }

  lemma AggregateComplete(cfg: Config, st: State, r: Request, rs: map<Key, Krp>, shares: map<Key, int>, h: Digest)
    requires cfg.g.Valid() && RequestOk(cfg, r, h) && r.nonce in st.rs && rs == st.rs[r.nonce]
    requires RoundFits(cfg, r, rs, shares, h) && SignersFit(cfg.me, r.pks, shares.Keys)
    requires Unspent(cfg, rs) && NonceOk(cfg, rs)
    ensures var (st', o) := Aggregate(cfg, st, r.nonce, r.tx, shares, shares.Keys);
            && o.Submitted? && o.submission.hash == h && SubmissionOk(cfg, r, shares.Keys, o.submission)
            && r.nonce in st'.rs && st' == st.(rs := st.rs[r.nonce := st'.rs[r.nonce]]) && SamePoints(rs, st'.rs[r.nonce])
  {
    AggregatedOk(cfg, r, rs, shares, h);
    AggregateIs(cfg, st, r.nonce, r.tx, rs, shares);
  }

  lemma AggregatedOk(cfg: Config, r: Request, rs: map<Key, Krp>, shares: map<Key, int>, h: Digest)
    requires cfg.g.Valid() && Distinct(r.pks) && RoundFits(cfg, r, rs, shares, h)
    requires SignersFit(cfg.me, r.pks, shares.Keys) && Unspent(cfg, rs) && NonceOk(cfg, rs)
    ensures SubmissionOk(cfg, r, shares.Keys, Aggregated(cfg, rs, shares, h))
  {
    AggregateServesIff(cfg, r, rs, shares, h);
    if shares.Keys == Elements(r.pks) {
      AggregateCorrect(cfg, r, rs, shares, h);
    }
  }

  /** With an R entry for every share, aggregation goes through. */
  lemma AggregateIs(cfg: Config, st: State, nonce: Digest, tx: Tx, rs: map<Key, Krp>, shares: map<Key, int>)
    requires cfg.g.n > 1 && nonce in st.rs && rs == st.rs[nonce] && shares.Keys <= rs.Keys
    ensures var (st', o) := Aggregate(cfg, st, nonce, tx, shares, shares.Keys);
            && o == Submitted(Aggregated(cfg, rs, shares, TxHash(tx)))
            && nonce in st'.rs && st' == st.(rs := st.rs[nonce := st'.rs[nonce]]) && SamePoints(rs, st'.rs[nonce])
  {
    assert shares.Keys * rs.Keys == shares.Keys;
  }

  /** Aggregation leaves its terms in the store: each signer's nonce, with its sign, plus
      its share; the submitted signature is their sum. */
  lemma SpentNoncesSum(cfg: Config, st: State, nonce: Digest, tx: Tx, rs: map<Key, Krp>, shares: map<Key, int>)
    requires cfg.g.n > 1 && nonce in st.rs && rs == st.rs[nonce] && shares.Keys <= rs.Keys
    ensures var (st', o) := Aggregate(cfg, st, nonce, tx, shares, shares.Keys);
            && o.Submitted? && nonce in st'.rs && st'.rs[nonce].Keys == rs.Keys
            && o.submission.s == Residue(MapSum(map k | k in shares :: st'.rs[nonce][k].k0), cfg.g.n)
            && (forall k | k in shares ::
                  st'.rs[nonce][k].k0 == (if cfg.g.Qr(o.submission.rsum) then rs[k].k0 else cfg.g.n - rs[k].k0) + shares[k])
            && (forall k | k in rs && k !in shares :: st'.rs[nonce][k] == rs[k])
  {
    assert shares.Keys * rs.Keys == shares.Keys;
    var (st', o) := Aggregate(cfg, st, nonce, tx, shares, shares.Keys);
    assert (map k | k in shares :: st'.rs[nonce][k].k0) == Terms(cfg.g, o.submission.rsum, rs, shares);
  }

  lemma TakenShape(cfg: Config, sys: System, next: System, h: Digest, key: Key)
    requires cfg.g.n > 1 && Shape(sys) && RequestsOk(cfg, sys) && KeysOk(cfg, sys)
    requires h in sys.st.ss && h in sys.asked && sys.asked[h].nonce in sys.st.rs && ShareTaken(cfg, sys, next, h, key)
    ensures Shape(next) && RequestsOk(cfg, next) && KeysOk(cfg, next)
  {
    assert next.st.rs.Keys == sys.st.rs.Keys;
    TakenKeys(cfg, sys, next, h, key);
    forall n | n in next.opening && n in next.st.rs ensures next.st.rs[n] == map[] {
      TakenNonces(cfg, sys, next, h, key, n);
    }
    SameRequests(cfg, sys, next);
  }

  lemma TakenKeys(cfg: Config, sys: System, next: System, h: Digest, key: Key)
    requires cfg.g.n > 1 && KeysOk(cfg, sys)
    requires h in sys.st.ss && h in sys.asked && sys.asked[h].nonce in sys.st.rs && ShareTaken(cfg, sys, next, h, key)
    ensures KeysOk(cfg, next)
  {
    forall n | n in next.st.rs ensures NonceOk(cfg, next.st.rs[n]) {
      assert NonceOk(cfg, sys.st.rs[n]);
    }
  }

  lemma SameRequests(cfg: Config, sys: System, next: System)
    requires RequestsOk(cfg, sys) && next.asked == sys.asked && next.used == sys.used
    requires next.timers == sys.timers && next.opening == sys.opening
    ensures RequestsOk(cfg, next)
  {
  }

  lemma TakenNonces(cfg: Config, sys: System, next: System, h: Digest, key: Key, nonce: Digest)
    requires cfg.g.n > 1 && h in sys.st.ss && h in sys.asked && sys.asked[h].nonce in sys.st.rs
    requires ShareTaken(cfg, sys, next, h, key)
    requires nonce in sys.st.rs && nonce != sys.asked[h].nonce
    ensures nonce in next.st.rs && next.st.rs[nonce] == sys.st.rs[nonce] && Extends(cfg, sys, next, nonce)
  {
  }

  lemma TakenTimers(cfg: Config, sys: System, next: System, h: Digest, key: Key)
    requires cfg.g.n > 1 && RequestsOk(cfg, sys) && TimersUnspent(cfg, sys)
    requires h in sys.st.ss && h in sys.asked && sys.asked[h].nonce in sys.st.rs && ShareTaken(cfg, sys, next, h, key)
    ensures TimersUnspent(cfg, next)
  {
    forall n | n in next.timers && n in next.st.rs ensures Unspent(cfg, next.st.rs[n]) {
      TakenNonces(cfg, sys, next, h, key, n);
    }
  }

  lemma TakenRounds(cfg: Config, sys: System, next: System, h: Digest, key: Key)
    requires cfg.g.n > 1 && RequestsOk(cfg, sys) && RoundsOk(cfg, sys)
    requires h in sys.st.ss && h in sys.asked && sys.asked[h].nonce in sys.st.rs && ShareTaken(cfg, sys, next, h, key)
    ensures RoundsOk(cfg, next)
  {
    assert RoundOk(cfg, sys, h);
    forall x | x in next.st.ss ensures RoundOk(cfg, next, x) {
      if x == h {
        TakenRound(cfg, sys, next, h, key);
      } else {
        assert RoundOk(cfg, sys, x);
        TakenOtherRound(cfg, sys, next, h, key, x);
      }
    }
  }

  lemma TakenOtherRound(cfg: Config, sys: System, next: System, h: Digest, key: Key, x: Digest)
    requires cfg.g.n > 1 && RequestsOk(cfg, sys) && x in sys.st.ss && RoundOk(cfg, sys, x) && x != h
    requires h in sys.st.ss && h in sys.asked && sys.asked[h].nonce in sys.st.rs && ShareTaken(cfg, sys, next, h, key)
    ensures x in next.st.ss && RoundOk(cfg, next, x)
  {
    TakenNonces(cfg, sys, next, h, key, sys.asked[x].nonce);
    TakenOtherHash(cfg, sys, next, h, key, x);
    RoundFrame(cfg, sys, next, x);
  }

  lemma TakenOtherHash(cfg: Config, sys: System, next: System, h: Digest, key: Key, x: Digest)
    requires cfg.g.n > 1 && h in sys.st.ss && h in sys.asked && sys.asked[h].nonce in sys.st.rs
    requires ShareTaken(cfg, sys, next, h, key) && x != h
    ensures SubmittedHash(next, x) <==> SubmittedHash(sys, x)
  {
    if SubmittedHash(next, x) {
      var i :| 0 <= i < |next.subs| && next.subs[i].hash == x;
      assert sys.subs[i].hash == x;
    }
    if SubmittedHash(sys, x) {
      var i :| 0 <= i < |sys.subs| && sys.subs[i].hash == x;
      assert next.subs[i].hash == x;
    }
  }

  lemma TakenRound(cfg: Config, sys: System, next: System, h: Digest, key: Key)
    requires cfg.g.n > 1 && RequestsOk(cfg, sys) && h in sys.st.ss && RoundOk(cfg, sys, h)
    requires ShareTaken(cfg, sys, next, h, key)
    ensures RoundOk(cfg, next, h)
  {
    var r := sys.asked[h];
    TakenFits(cfg, sys, next, h, key);
    OneShareMore(sys.st.ss[h], next.st.ss[h], key);
    if |next.st.ss[h]| == |r.pks| {
      assert next.subs[|sys.subs|].hash == h && SignersFit(cfg.me, r.pks, next.st.ss[h].Keys);
    }
  }

  lemma TakenFits(cfg: Config, sys: System, next: System, h: Digest, key: Key)
    requires cfg.g.n > 1 && h in sys.st.ss && h in sys.asked && sys.asked[h].nonce in sys.st.rs
    requires RoundFits(cfg, sys.asked[h], sys.st.rs[sys.asked[h].nonce], sys.st.ss[h], h)
    requires ShareTaken(cfg, sys, next, h, key)
    ensures sys.asked[h].nonce in next.st.rs
    ensures RoundFits(cfg, sys.asked[h], next.st.rs[sys.asked[h].nonce], next.st.ss[h], h)
  {
    var r := sys.asked[h];
    assert key in Elements(r.pks);
    if |next.st.ss[h]| == |r.pks| {
      ChallengeFrame(cfg.g, sys.st.rs[r.nonce], next.st.rs[r.nonce], r.pks, h);
    }
  }

  lemma TakenSubmissions(cfg: Config, sys: System, next: System, h: Digest, key: Key)
    requires cfg.g.n > 1 && SubmissionsOk(cfg, sys) && h in sys.st.ss && RoundOk(cfg, sys, h)
    requires ShareTaken(cfg, sys, next, h, key)
    ensures SubmissionsOk(cfg, next)
  {
    OneShareMore(sys.st.ss[h], next.st.ss[h], key);
    if |next.st.ss[h]| == |sys.asked[h].pks| {
      assert !SubmittedHash(sys, h);
      SubmissionsGrow(cfg, sys, next, h, next.st.ss[h].Keys);
    }
  }

  lemma SubmissionsGrow(cfg: Config, sys: System, next: System, h: Digest, signers: set<Key>)
    requires cfg.g.n > 1 && SubmissionsOk(cfg, sys) && !SubmittedHash(sys, h) && h in sys.asked
    requires |next.subs| == |sys.subs| + 1 && next.subs[..|sys.subs|] == sys.subs && next.subs[|sys.subs|].hash == h
    requires next.asked == sys.asked && next.signed == sys.signed[h := signers]
    requires SubmissionOk(cfg, sys.asked[h], signers, next.subs[|sys.subs|])
    ensures SubmissionsOk(cfg, next)
  {
    forall i | 0 <= i < |sys.subs| ensures next.subs[i] == sys.subs[i] && sys.subs[i].hash != h {
      assert next.subs[..|sys.subs|][i] == sys.subs[i];
    }
  }

  lemma TakenCredit(cfg: Config, sys: System, next: System, h: Digest, key: Key)
    requires cfg.g.n > 1 && CreditOk(cfg, sys)
    requires h in sys.st.ss && h in sys.asked && sys.asked[h].nonce in sys.st.rs && ShareTaken(cfg, sys, next, h, key)
    ensures CreditOk(cfg, next)
  {
    var shares := next.st.ss[h];
    forall k: Key | k != cfg.me ensures Count(next.st.unsigned, k) >= |Outstanding(next, k)| {
      assert Count(sys.st.unsigned, k) >= |Outstanding(sys, k)|;
      OneLessOwed(sys, next, h, key, shares, k);
    }
  }

  lemma OneLessOwed(sys: System, next: System, h: Digest, key: Key, shares: map<Key, int>, k: Key)
    requires h in sys.st.ss && h in sys.asked && key in sys.asked[h].pks && key !in sys.st.ss[h]
    requires next.asked == sys.asked && next.st.ss == sys.st.ss[h := shares]
    requires shares.Keys == sys.st.ss[h].Keys + {key}
    requires Count(sys.st.unsigned, key) >= 1 && next.st.unsigned == sys.st.unsigned[key := sys.st.unsigned[key] - 1]
    requires Count(sys.st.unsigned, k) >= |Outstanding(sys, k)|
    ensures Count(next.st.unsigned, k) >= |Outstanding(next, k)|
  {
    if k == key {
      assert h in Outstanding(sys, k);
      assert Outstanding(next, k) == Outstanding(sys, k) - {h};
    } else {
      assert Outstanding(next, k) == Outstanding(sys, k);
    }
  }

  lemma AnswerSKeeps(cfg: Config, sys: System, h: Digest, key: Key)
    requires cfg.g.Valid() && Inv(cfg, sys) && h in sys.asked && key in sys.asked[h].pks
    ensures Inv(cfg, DoAnswerS(cfg, sys, h, key))
  {
    var next, taken := AnswerSOutcome(cfg, sys, h, key);
    if taken {
      assert RoundOk(cfg, sys, h);
      TakenShape(cfg, sys, next, h, key);
      TakenTimers(cfg, sys, next, h, key);
      TakenRounds(cfg, sys, next, h, key);
      TakenSubmissions(cfg, sys, next, h, key);
      TakenCredit(cfg, sys, next, h, key);
    }
  }

  // ---- runs ---------------------------------------------------------------------------

  lemma StepKeeps(cfg: Config, sys: System, ev: Event)
    requires cfg.g.Valid() && Inv(cfg, sys) && Enabled(cfg, sys, ev)
    ensures Inv(cfg, Step(cfg, sys, ev))
  {
    match ev
    case ProposeTx(tx) => ProposeKeeps(cfg, sys, tx);
    case OwnNonce(nonce, own) => OwnNonceKeeps(cfg, sys, nonce, own);
    case RAnswered(nonce, key, k0, arbiters) => AnswerRKeeps(cfg, sys, nonce, key, k0);
    case TimerFired(nonce, arbiters, min, order) => TimerKeeps(cfg, sys, nonce, arbiters, min, order);
    case SAnswered(hash, key, arbiters, needed) => AnswerSKeeps(cfg, sys, hash, key);
    case RForged(_, _, _) => ForgedIsNothing(cfg, sys, ev);
    case SForged(_) => ForgedIsNothing(cfg, sys, ev);
    case WasReset => ResetKeeps(cfg, sys);
  }

  predicate IsForged(ev: Event) {
    ev.RForged? || ev.SForged?
  }

  /** An answer with a wrong signature changes nothing. */
  lemma ForgedIsNothing(cfg: Config, sys: System, ev: Event)
    requires cfg.g.n > 1 && IsForged(ev)
    ensures Step(cfg, sys, ev) == sys
  {
  }

  ghost predicate ValidRun(cfg: Config, sys: System, evs: seq<Event>)
    requires cfg.g.n > 1
    decreases |evs|
  {
    evs == [] || (Enabled(cfg, sys, evs[0]) && ValidRun(cfg, Step(cfg, sys, evs[0]), evs[1..]))
  }

  ghost function Run(cfg: Config, sys: System, evs: seq<Event>): System
    requires cfg.g.n > 1 && ValidRun(cfg, sys, evs)
    decreases |evs|
  {
    if evs == [] then sys else Run(cfg, Step(cfg, sys, evs[0]), evs[1..])
  }

  lemma {:induction false} RunSnoc(cfg: Config, sys: System, evs: seq<Event>, ev: Event)
    requires cfg.g.n > 1 && ValidRun(cfg, sys, evs) && Enabled(cfg, Run(cfg, sys, evs), ev)
    ensures ValidRun(cfg, sys, evs + [ev]) && Run(cfg, sys, evs + [ev]) == Step(cfg, Run(cfg, sys, evs), ev)
    decreases |evs|
  {
    if evs == [] {
      assert evs + [ev] == [ev] && [ev][1..] == [];
      assert ValidRun(cfg, Step(cfg, sys, ev), []);
    } else {
      RunSnoc(cfg, Step(cfg, sys, evs[0]), evs[1..], ev);
      assert (evs + [ev])[0] == evs[0] && (evs + [ev])[1..] == evs[1..] + [ev];
    }
  }

  lemma {:induction false} RunKeeps(cfg: Config, sys: System, evs: seq<Event>)
    requires cfg.g.Valid() && Inv(cfg, sys) && ValidRun(cfg, sys, evs)
    ensures Inv(cfg, Run(cfg, sys, evs))
    decreases |evs|
  {
    if evs != [] {
      StepKeeps(cfg, sys, evs[0]);
      RunKeeps(cfg, Step(cfg, sys, evs[0]), evs[1..]);
    }
  }

  /** Over every run with honest signers: the mutex is never left locked, no transaction
      is submitted twice, and every submitted signature is under the joint key of its
      signers, the proposer and otherwise asked ones, as many as were asked. Unless their
      nonces cancelled out, it verifies if the signers are those that were asked, and
      otherwise exactly if the challenge of the request happens to serve for their key. */
  lemma EverySubmissionIsSigned(cfg: Config, evs: seq<Event>)
    requires cfg.g.Valid() && ValidRun(cfg, START, evs)
    ensures var sys := Run(cfg, START, evs);
            && !sys.st.held
            && (forall i, j | 0 <= i < j < |sys.subs| :: sys.subs[i].hash != sys.subs[j].hash)
            && forall i | 0 <= i < |sys.subs| ::
                 var sub := sys.subs[i];
                 && sub.hash in sys.asked && sub.hash in sys.signed
                 && SubmissionOk(cfg, sys.asked[sub.hash], sys.signed[sub.hash], sub)
  {
    StartInv(cfg);
    RunKeeps(cfg, START, evs);
  }

  // ---- who signs, and when a round fires ------------------------------------------------

  /** While a round is open, its transaction has been submitted exactly when there are as
      many shares as asked keys, at least two. With the proposer among the asked, that is
      when all of them have answered; without, one answer may be missing, as the
      proposer's own share counts. */
  lemma FiresExactlyWhenComplete(cfg: Config, evs: seq<Event>, h: Digest)
    requires cfg.g.Valid() && ValidRun(cfg, START, evs)
    requires h in Run(cfg, START, evs).st.ss
    ensures h in Run(cfg, START, evs).asked
    ensures var sys := Run(cfg, START, evs);
            var pks, recorded := sys.asked[h].pks, sys.st.ss[h].Keys;
            && cfg.me in recorded && recorded <= Elements(pks) + {cfg.me}
            && (cfg.me in pks ==> (SubmittedHash(sys, h) <==> |pks| >= 2 && Elements(pks) <= recorded))
            && (cfg.me !in pks ==> (SubmittedHash(sys, h) <==> |pks| >= 2 && |Elements(pks) - recorded| <= 1))
  {
    StartInv(cfg);
    RunKeeps(cfg, START, evs);
    var sys := Run(cfg, START, evs);
    assert RoundOk(cfg, sys, h) && RequestOk(cfg, sys.asked[h], h);
    DistinctCardinality(sys.asked[h].pks);
    MissingShares(Elements(sys.asked[h].pks), sys.st.ss[h], cfg.me);
  }

  lemma MissingShares(asked: set<Key>, ss: map<Key, int>, me: Key)
    requires me in ss && ss.Keys <= asked + {me}
    ensures me in asked ==> (|ss| >= |asked| <==> asked <= ss.Keys)
    ensures me !in asked ==> (|ss| >= |asked| <==> |asked - ss.Keys| <= 1)
  {
    assert |ss| == |ss.Keys|;
    if me in asked {
      assert asked + {me} == asked;
      SubsetCardinality(ss.Keys, asked);
      assert asked <= ss.Keys ==> asked == ss.Keys;
    } else {
      assert asked - ss.Keys == asked - (ss.Keys - {me});
      assert |asked| == |ss.Keys - {me}| + |asked - (ss.Keys - {me})| by {
        assert asked == (ss.Keys - {me}) + (asked - (ss.Keys - {me}));
      }
    }
  }

  /** What fairness means for two signers: the proposer comes first, then whoever has no
      count, then whoever has not the larger one. */
  predicate MayPrecede(unsigned: map<Key, nat>, me: Key, a: Key, b: Key) {
    a == me || (b != me && (a !in unsigned || (b in unsigned && unsigned[a] <= unsigned[b])))
  }

  /** The keys asked are those of the chosen responders that are still listed and not
      blank: as many as the threshold if and only if all of them are, never more. The
      proposer is among them while it is listed, and no listed responder is left out in
      favour of one that owes more. */
  lemma SelectionIsFair(order: seq<Key>, responders: set<Key>, unsigned: map<Key, nat>, me: Key, arbiters: seq<Key>,
                        min: nat)
    requires IntendedOrder(order, responders, unsigned, me) && me in responders && NoRepeats(arbiters)
    requires 0 < min <= |responders|
    ensures var pks := PickKeys(arbiters, Elements(Chosen(order, min)));
            && |pks| <= min && Distinct(pks) && Elements(pks) <= responders && (me in pks <==> IsListed(arbiters, me))
            && (|pks| == min <==> forall k | k in Chosen(order, min) :: IsListed(arbiters, k))
            && forall a, b | a in pks && b in responders && IsListed(arbiters, b) && b !in pks ::
                 MayPrecede(unsigned, me, a, b)
  {
    var chosen := Chosen(order, min);
    var pks := PickKeys(arbiters, Elements(chosen));
    PickKeysSound(arbiters, Elements(chosen));
    DistinctCardinality(order);
    assert chosen == order[..min];
    DistinctTake(order, min);
    ProposerIsChosen(me, order, responders, unsigned, min);
    assert me in Elements(chosen);
    ChosenCount(arbiters, chosen, pks);
    forall a, b | a in pks && b in responders && IsListed(arbiters, b) && b !in pks
      ensures MayPrecede(unsigned, me, a, b) {
      assert a in Elements(chosen) && b in Elements(order) && b !in Elements(chosen);
      var i :| 0 <= i < min && order[i] == a;
      var j :| 0 <= j < |order| && order[j] == b;
      assert forall x | 0 <= x < min :: chosen[x] == order[x] && chosen[x] in Elements(chosen);
      assert j >= min;
      assert Rank(unsigned, me, order[i]) <= Rank(unsigned, me, order[j]);
    }
  }

  lemma ChosenCount(arbiters: seq<Key>, chosen: seq<Key>, pks: seq<Key>)
    requires Distinct(chosen) && Distinct(pks)
    requires forall k :: k in pks <==> IsListed(arbiters, k) && k in Elements(chosen)
    ensures Elements(pks) <= Elements(chosen) && |pks| <= |chosen|
    ensures |pks| == |chosen| <==> forall k | k in chosen :: IsListed(arbiters, k)
  {
    DistinctCardinality(chosen);
    DistinctCardinality(pks);
    SubsetCardinality(Elements(pks), Elements(chosen));
    if forall k | k in chosen :: IsListed(arbiters, k) {
      assert Elements(pks) == Elements(chosen);
    }
    if |pks| == |chosen| {
      forall k | k in chosen ensures IsListed(arbiters, k) {
        assert k in Elements(chosen) && k in Elements(pks);
      }
    }
  }

  /** In a run: once enough arbiters have answered, the timer opens a round whose signers
      are such a selection, at the positions its payload names. */
  lemma OpenedRoundIsFair(cfg: Config, sys: System, nonce: Digest, arbiters: seq<Key>, min: nat, order: seq<Key>)
    returns (r: Request)
    requires cfg.g.n > 1 && Inv(cfg, sys) && Enabled(cfg, sys, TimerFired(nonce, arbiters, min, order))
    requires nonce in sys.st.rs && 0 < min <= |sys.st.rs[nonce].Keys|
    ensures TxHash(r.tx) !in sys.asked
               && DoTimer(cfg, sys, nonce, arbiters, min, order).asked == sys.asked[TxHash(r.tx) := r]
    ensures |r.pks| <= min && Distinct(r.pks) && Elements(r.pks) <= sys.st.rs[nonce].Keys
    ensures cfg.me in r.pks <==> IsListed(arbiters, cfg.me)
    ensures |r.pks| == min <==> forall k | k in Chosen(order, min) :: IsListed(arbiters, k)
    ensures Names(arbiters, r.tx.signers, r.pks) <==> FitBytes(arbiters, |arbiters|, Elements(Chosen(order, min)))
    ensures forall a, b | a in r.pks && b in sys.st.rs[nonce] && IsListed(arbiters, b) && b !in r.pks ::
              MayPrecede(sys.st.unsigned, cfg.me, a, b)
  {
    assert nonce in sys.st.txs;
    r := NewRequest(cfg, sys, nonce, arbiters, min, order);
    SelectionIsFair(order, sys.st.rs[nonce].Keys, sys.st.unsigned, cfg.me, arbiters, min);
    IndexesNameTheSigners(arbiters, Elements(Chosen(order, min)));
    RoundIsAsked(cfg, sys, nonce, arbiters, min, order, r);
  }

  lemma RoundIsAsked(cfg: Config, sys: System, nonce: Digest, arbiters: seq<Key>, min: nat, order: seq<Key>, r: Request)
    requires cfg.g.n > 1 && !sys.st.held && nonce in sys.st.txs && nonce in sys.st.rs
    requires Elements(order) == sys.st.rs[nonce].Keys && min <= |sys.st.rs[nonce].Keys|
    requires r == BuildRequest(cfg, sys.st, nonce, arbiters, min, order) && TxHash(r.tx) !in sys.st.txs
    ensures DoTimer(cfg, sys, nonce, arbiters, min, order).asked == sys.asked[TxHash(r.tx) := r]
  {
  }

  /** The step asks this many signers in a new request. */
  ghost predicate Asks(sys: System, next: System, count: nat) {
    exists h :: h in next.asked && h !in sys.asked && |next.asked[h].pks| == count
  }

  /** The timer asks as many signers as are required if and only if that many have
      answered and all of those it chooses are still listed and not blank. When one has
      left the list since it answered, the round is opened with fewer. */
  lemma RoundAsksMinIff(cfg: Config, sys: System, nonce: Digest, arbiters: seq<Key>, min: nat, order: seq<Key>)
    requires cfg.g.n > 1 && Inv(cfg, sys) && Enabled(cfg, sys, TimerFired(nonce, arbiters, min, order))
    requires nonce in sys.st.rs && 0 < min
    ensures Asks(sys, DoTimer(cfg, sys, nonce, arbiters, min, order), min) <==>
              |sys.st.rs[nonce].Keys| >= min && forall k | k in Chosen(order, min) :: IsListed(arbiters, k)
  {
    var next := DoTimer(cfg, sys, nonce, arbiters, min, order);
    if |sys.st.rs[nonce].Keys| >= min {
      var r := OpenedRoundIsFair(cfg, sys, nonce, arbiters, min, order);
      assert TxHash(r.tx) in next.asked && next.asked[TxHash(r.tx)] == r;
    } else {
      assert next.asked == sys.asked;
    }
  }

  // ---- a round finishes when everybody asked has answered ----------------------------------

  ghost predicate AnswersKept(sys: System, next: System, h: Digest) {
    h in sys.st.ss && h in sys.asked ==>
      && h in next.st.ss && h in next.asked && next.asked[h] == sys.asked[h]
      && sys.st.ss[h].Keys <= next.st.ss[h].Keys
  }

  lemma AnswerSAnswers(cfg: Config, sys: System, hash: Digest, key: Key, h: Digest)
    requires cfg.g.Valid() && Inv(cfg, sys) && hash in sys.asked && key in sys.asked[hash].pks
    ensures var next := DoAnswerS(cfg, sys, hash, key);
            AnswersKept(sys, next, h) && (hash in sys.st.ss ==> hash in next.st.ss && key in next.st.ss[hash])
  {
    var next, taken := AnswerSOutcome(cfg, sys, hash, key);
    if taken {
      var shares := TakenShares(cfg, sys, next, hash, key);
      SharesKept(sys, next, hash, shares, h);
    }
  }

  lemma TakenShares(cfg: Config, sys: System, next: System, hash: Digest, key: Key) returns (shares: map<Key, int>)
    requires cfg.g.n > 1 && hash in sys.st.ss && hash in sys.asked && sys.asked[hash].nonce in sys.st.rs
    requires ShareTaken(cfg, sys, next, hash, key)
    ensures next.asked == sys.asked && next.st.ss == sys.st.ss[hash := shares]
               && shares.Keys == sys.st.ss[hash].Keys + {key}
  {
    shares := next.st.ss[hash];
  }

  lemma SharesKept(sys: System, next: System, hash: Digest, shares: map<Key, int>, h: Digest)
    requires hash in sys.st.ss && sys.st.ss[hash].Keys <= shares.Keys
    requires next.asked == sys.asked && next.st.ss == sys.st.ss[hash := shares]
    ensures AnswersKept(sys, next, h)
  {
  }

  /** An answer of a listed signer arrives for this request. */
  predicate AnswersFor(ev: Event, h: Digest, k: Key) {
    ev.SAnswered? && ev.hash == h && ev.key == k && IsListed(ev.arbiters, k)
  }

  predicate Answered(evs: seq<Event>, h: Digest, k: Key) {
    exists i :: 0 <= i < |evs| && AnswersFor(evs[i], h, k)
  }

  predicate InPhaseR(ev: Event) {
    ev.ProposeTx? || ev.OwnNonce? || ev.RAnswered?
  }

  /** Phase R does not touch shares or requests. */
  lemma PhaseRAnswers(cfg: Config, sys: System, ev: Event)
    requires cfg.g.n > 1 && Enabled(cfg, sys, ev) && InPhaseR(ev)
    ensures var next := Step(cfg, sys, ev);
            && next.st.ss == sys.st.ss && next.asked == sys.asked && next.bases == sys.bases
            && next.subs == sys.subs && next.signed == sys.signed
  {
    match ev
    case ProposeTx(tx) => ProposeOnlyTouchesNonces(sys.st, tx);
    case OwnNonce(nonce, own) => OwnNonceOnlyTouchesNonces(cfg, sys.st, nonce, OwnKrp(cfg, own));
    case RAnswered(nonce, key, k0, arbiters) => AnswerROnlyTouchesNonces(sys.st, nonce, key, HonestKrp(cfg, key, k0));
  }

  lemma TimerAnswers(cfg: Config, sys: System, ev: Event, h: Digest)
    requires cfg.g.n > 1 && Inv(cfg, sys) && Enabled(cfg, sys, ev) && ev.TimerFired?
    ensures AnswersKept(sys, Step(cfg, sys, ev), h)
  {
    var next := TimerFrame(cfg, sys, ev.nonce, ev.arbiters, ev.min, ev.order);
  }

  lemma PhaseRAnswersKept(cfg: Config, sys: System, ev: Event, h: Digest)
    requires cfg.g.n > 1 && Enabled(cfg, sys, ev) && InPhaseR(ev)
    ensures AnswersKept(sys, Step(cfg, sys, ev), h)
  {
    PhaseRAnswers(cfg, sys, ev);
    SharesSame(sys, Step(cfg, sys, ev), h);
  }

  lemma SharesSame(sys: System, next: System, h: Digest)
    requires next.st.ss == sys.st.ss && next.asked == sys.asked
    ensures AnswersKept(sys, next, h)
  {
  }

  lemma SAnswersKept(cfg: Config, sys: System, ev: Event, h: Digest)
    requires cfg.g.Valid() && Inv(cfg, sys) && Enabled(cfg, sys, ev) && ev.SAnswered?
    ensures AnswersKept(sys, Step(cfg, sys, ev), h)
    ensures AnswersFor(ev, h, ev.key) && h in sys.st.ss ==>
              h in Step(cfg, sys, ev).st.ss && ev.key in Step(cfg, sys, ev).st.ss[h]
  {
    AnswerSAnswers(cfg, sys, ev.hash, ev.key, h);
    SharesSame(sys, sys, h);
  }

  lemma StepAnswers(cfg: Config, sys: System, ev: Event, h: Digest)
    requires cfg.g.Valid() && Inv(cfg, sys) && Enabled(cfg, sys, ev) && ev != WasReset
    ensures AnswersKept(sys, Step(cfg, sys, ev), h)
    ensures ev.SAnswered? && AnswersFor(ev, h, ev.key) && h in sys.st.ss ==>
              h in Step(cfg, sys, ev).st.ss && ev.key in Step(cfg, sys, ev).st.ss[h]
  {
    if InPhaseR(ev) {
      PhaseRAnswersKept(cfg, sys, ev, h);
    } else if ev.TimerFired? {
      TimerAnswers(cfg, sys, ev, h);
    } else if IsForged(ev) {
      ForgedIsNothing(cfg, sys, ev);
      SharesSame(sys, sys, h);
    } else {
      SAnswersKept(cfg, sys, ev, h);
    }
  }

  lemma ProposeOnlyTouchesNonces(st: State, tx: Tx)
    ensures var st' := Propose(st, tx).0; st' == st.(txs := st'.txs, rs := st'.rs)
  {
  }

  lemma {:induction false} AnswersAccumulate(cfg: Config, sys: System, evs: seq<Event>, h: Digest, k: Key)
    requires cfg.g.Valid() && Inv(cfg, sys) && ValidRun(cfg, sys, evs) && WasReset !in evs
    requires h in sys.st.ss && h in sys.asked
    ensures var last := Run(cfg, sys, evs);
            && h in last.st.ss && h in last.asked && last.asked[h] == sys.asked[h]
            && (k in sys.st.ss[h] || Answered(evs, h, k) ==> k in last.st.ss[h])
    decreases |evs|
  {
    if evs != [] {
      var next := Step(cfg, sys, evs[0]);
      assert evs[0] != WasReset && forall e | e in evs[1..] :: e in evs;
      StepKeeps(cfg, sys, evs[0]);
      StepAnswers(cfg, sys, evs[0], h);
      AnswersAccumulate(cfg, next, evs[1..], h, k);
      AnsweredFirst(evs, h, k);
    }
  }

  lemma AnsweredFirst(evs: seq<Event>, h: Digest, k: Key)
    requires evs != []
    ensures Answered(evs, h, k) <==> AnswersFor(evs[0], h, k) || Answered(evs[1..], h, k)
  {
    if Answered(evs, h, k) {
      var i :| 0 <= i < |evs| && AnswersFor(evs[i], h, k);
      assert i > 0 ==> evs[1..][i - 1] == evs[i];
    }
    if Answered(evs[1..], h, k) {
      var i :| 0 <= i < |evs[1..]| && AnswersFor(evs[1..][i], h, k);
      assert evs[i + 1] == evs[1..][i];
    }
  }

  /** In whatever order and however often the answers arrive, once every signer
      asked has answered the transaction has been submitted (no Reset meanwhile). */
  lemma CompleteRoundIsSubmitted(cfg: Config, sys: System, evs: seq<Event>, h: Digest)
    requires cfg.g.Valid() && Inv(cfg, sys) && ValidRun(cfg, sys, evs) && WasReset !in evs
    requires h in sys.st.ss && h in sys.asked && |sys.asked[h].pks| >= 2
    requires forall k | k in sys.asked[h].pks :: k in sys.st.ss[h] || Answered(evs, h, k)
    ensures SubmittedHash(Run(cfg, sys, evs), h)
  {
    var last := Run(cfg, sys, evs);
    AnswersAccumulate(cfg, sys, evs, h, cfg.me);
    forall k | k in Elements(sys.asked[h].pks) ensures k in last.st.ss[h] {
      AnswersAccumulate(cfg, sys, evs, h, k);
    }
    RunKeeps(cfg, sys, evs);
    assert RequestOk(cfg, last.asked[h], h);
    AllAnswered(cfg, last, h);
  }

  lemma AllAnswered(cfg: Config, sys: System, h: Digest)
    requires cfg.g.n > 1 && RoundsOk(cfg, sys) && h in sys.st.ss && h in sys.asked && |sys.asked[h].pks| >= 2
    requires Elements(sys.asked[h].pks) <= sys.st.ss[h].Keys && Distinct(sys.asked[h].pks)
    ensures SubmittedHash(sys, h)
  {
    assert RoundOk(cfg, sys, h);
    DistinctCardinality(sys.asked[h].pks);
    SubsetCardinality(Elements(sys.asked[h].pks), sys.st.ss[h].Keys);
    assert |sys.st.ss[h]| == |sys.st.ss[h].Keys|;
  }

  // ---- how many sign ----------------------------------------------------------------------

  /** An answer of the S phase from a signer that found as many signers in the payload as
      it requires. */
  datatype Answer = Answer(hash: Digest, key: Key, needed: nat)

  function AnswerOf(ev: Event): set<Answer> {
    if ev.SAnswered? && IsListed(ev.arbiters, ev.key) then {Answer(ev.hash, ev.key, ev.needed)} else {}
  }

  function AnswersOf(evs: seq<Event>): set<Answer>
    decreases |evs|
  {
    if evs == [] then {} else AnswerOf(evs[0]) + AnswersOf(evs[1..])
  }

  /** How many signers the payload of a transaction names. */
  function PayloadSigners(h: Digest): nat {
    if h.TxHash? then |h.tx.signers| else 0
  }

  /** The keys of a request stand in the arbiter list it was made from, one position in
      the payload for each, and at those positions unless one is beyond a byte. The
      proposer is among them exactly if it stands in the list itself; if it does not, they
      are fewer than asked for. */
  ghost predicate BasisOk(me: Key, r: Request, b: Basis) {
    && NoRepeats(b.list) && |r.tx.signers| == |r.pks| && (forall k | k in r.pks :: IsListed(b.list, k))
    && (Names(b.list, r.tx.signers, r.pks) <==> FitBytes(b.list, |b.list|, Elements(r.pks)))
    && (me in r.pks <==> IsListed(b.list, me))
    && (0 < b.min ==> |r.pks| <= b.min && (me !in r.pks ==> |r.pks| < b.min))
  }

  ghost predicate BasesOk(me: Key, sys: System) {
    forall h | h in sys.asked :: h in sys.bases && BasisOk(me, sys.asked[h], sys.bases[h])
  }

  /** Behind every recorded share and every signer of a submission there is such an
      answer, but for the proposer's own share. */
  ghost predicate SharesAnswered(me: Key, sys: System, answers: set<Answer>) {
    forall h, k | h in sys.st.ss && k in sys.st.ss[h] && k != me :: Answer(h, k, PayloadSigners(h)) in answers
  }

  ghost predicate SubmissionAnswered(me: Key, sys: System, h: Digest, answers: set<Answer>) {
    && h in sys.asked && h in sys.signed
    && forall k | k in sys.signed[h] && k != me :: Answer(h, k, PayloadSigners(h)) in answers
  }

  ghost predicate SubmissionsAnswered(me: Key, sys: System, answers: set<Answer>) {
    forall i | 0 <= i < |sys.subs| :: SubmissionAnswered(me, sys, sys.subs[i].hash, answers)
  }

  ghost predicate CountsOk(me: Key, sys: System, answers: set<Answer>) {
    BasesOk(me, sys) && SharesAnswered(me, sys, answers) && SubmissionsAnswered(me, sys, answers)
  }

  lemma BuiltBasisOk(cfg: Config, st: State, nonce: Digest, arbiters: seq<Key>, min: nat, order: seq<Key>)
    requires cfg.g.n > 1 && nonce in st.txs && nonce in st.rs && cfg.me in st.rs[nonce] && min <= |st.rs[nonce].Keys|
    requires IntendedOrder(order, st.rs[nonce].Keys, st.unsigned, cfg.me) && NoRepeats(arbiters)
    ensures BasisOk(cfg.me, BuildRequest(cfg, st, nonce, arbiters, min, order), Basis(arbiters, min))
  {
    var chosen := Elements(Chosen(order, min));
    var pks := PickKeys(arbiters, chosen);
    PickKeysSound(arbiters, chosen);
    OneIndexEach(arbiters, chosen);
    IndexesNameTheSigners(arbiters, chosen);
    ProposerIsChosen(cfg.me, order, st.rs[nonce].Keys, st.unsigned, min);
    FitBytesOfPicked(arbiters, chosen, pks);
    if 0 < min {
      ChosenSize(order, min, st.rs[nonce].Keys);
      ChosenCount(arbiters, Chosen(order, min), pks);
    }
  }

  lemma FitBytesOfPicked(arbiters: seq<Key>, chosen: set<Key>, pks: seq<Key>)
    requires forall k :: k in pks <==> IsListed(arbiters, k) && k in chosen
    ensures FitBytes(arbiters, |arbiters|, chosen) <==> FitBytes(arbiters, |arbiters|, Elements(pks))
  {
    forall i | 0 <= i < |arbiters| && arbiters[i] != ""
      ensures arbiters[i] in chosen <==> arbiters[i] in Elements(pks) {
      assert arbiters[i] in arbiters;
    }
  }

  lemma ChosenSize(order: seq<Key>, min: nat, responders: set<Key>)
    requires Distinct(order) && Elements(order) == responders && 0 < min <= |responders|
    ensures Distinct(Chosen(order, min)) && |Chosen(order, min)| == min
  {
    DistinctCardinality(order);
    DistinctTake(order, min);
  }

  lemma TimerAsked(cfg: Config, sys: System, nonce: Digest, arbiters: seq<Key>, min: nat, order: seq<Key>)
    returns (next: System, began: bool)
    requires cfg.g.n > 1 && (nonce in sys.st.rs ==> Elements(order) == sys.st.rs[nonce].Keys)
    ensures next == DoTimer(cfg, sys, nonce, arbiters, min, order)
    ensures began ==> nonce in sys.st.txs && nonce in sys.st.rs && min <= |sys.st.rs[nonce].Keys|
    ensures if began then
              var r := BuildRequest(cfg, sys.st, nonce, arbiters, min, order);
              next.asked == sys.asked[TxHash(r.tx) := r] && next.bases == sys.bases[TxHash(r.tx) := Basis(arbiters, min)]
            else next.asked == sys.asked && next.bases == sys.bases
  {
    next := DoTimer(cfg, sys, nonce, arbiters, min, order);
    began := StartRound(cfg, sys.st, nonce, arbiters, min, order).1.Asked?;
  }

  lemma TimerBases(cfg: Config, sys: System, nonce: Digest, arbiters: seq<Key>, min: nat, order: seq<Key>)
    requires cfg.g.n > 1 && BasesOk(cfg.me, sys) && TimersUnspent(cfg, sys)
    requires Enabled(cfg, sys, TimerFired(nonce, arbiters, min, order))
    ensures BasesOk(cfg.me, DoTimer(cfg, sys, nonce, arbiters, min, order))
  {
    var next, began := TimerAsked(cfg, sys, nonce, arbiters, min, order);
    if began {
      BuiltBasisOk(cfg, sys.st, nonce, arbiters, min, order);
    }
  }

  lemma TimerCounts(cfg: Config, sys: System, answers: set<Answer>, nonce: Digest, arbiters: seq<Key>, min: nat,
                    order: seq<Key>)
    requires cfg.g.n > 1 && Inv(cfg, sys) && Enabled(cfg, sys, TimerFired(nonce, arbiters, min, order))
    requires CountsOk(cfg.me, sys, answers)
    ensures CountsOk(cfg.me, DoTimer(cfg, sys, nonce, arbiters, min, order), answers)
  {
    TimerBases(cfg, sys, nonce, arbiters, min, order);
    var next, began, r := TimerOutcome(cfg, sys, nonce, arbiters, min, order);
    if began {
      OpenedCounts(cfg, sys, next, answers, nonce, arbiters, r);
    } else {
      assert next.st.ss == sys.st.ss && next.subs == sys.subs && next.asked == sys.asked && next.signed == sys.signed;
    }
  }

  lemma OpenedCounts(cfg: Config, sys: System, next: System, answers: set<Answer>, nonce: Digest, arbiters: seq<Key>,
                     r: Request)
    requires cfg.g.n > 1 && nonce in sys.st.rs && Opened(cfg, sys, next, nonce, arbiters, r)
    requires SharesAnswered(cfg.me, sys, answers) && SubmissionsAnswered(cfg.me, sys, answers)
    ensures SharesAnswered(cfg.me, next, answers) && SubmissionsAnswered(cfg.me, next, answers)
  {
    forall i | 0 <= i < |next.subs| ensures SubmissionAnswered(cfg.me, next, next.subs[i].hash, answers) {
      assert SubmissionAnswered(cfg.me, sys, sys.subs[i].hash, answers);
    }
  }

  lemma ShareCounts(cfg: Config, sys: System, next: System, answers: set<Answer>, h: Digest, key: Key)
    requires cfg.g.n > 1 && h in sys.st.ss && h in sys.asked && sys.asked[h].nonce in sys.st.rs
    requires ShareTaken(cfg, sys, next, h, key)
    requires SharesAnswered(cfg.me, sys, answers) && SubmissionsAnswered(cfg.me, sys, answers)
    requires forall i | 0 <= i < |sys.subs| && next.subs != sys.subs :: sys.subs[i].hash != h
    requires Answer(h, key, PayloadSigners(h)) in answers
    ensures SharesAnswered(cfg.me, next, answers) && SubmissionsAnswered(cfg.me, next, answers)
  {
    forall i | 0 <= i < |next.subs| ensures SubmissionAnswered(cfg.me, next, next.subs[i].hash, answers) {
      if i < |sys.subs| {
        assert SubmissionAnswered(cfg.me, sys, sys.subs[i].hash, answers);
        assert next.subs != sys.subs ==> next.subs[..|sys.subs|][i] == sys.subs[i];
      } else {
        assert next.signed[h] == next.st.ss[h].Keys;
      }
    }
  }

  lemma NotSubmittedBefore(cfg: Config, sys: System, next: System, h: Digest, key: Key)
    requires cfg.g.n > 1 && RoundsOk(cfg, sys) && h in sys.st.ss && h in sys.asked && sys.asked[h].nonce in sys.st.rs
    requires ShareTaken(cfg, sys, next, h, key)
    ensures forall i | 0 <= i < |sys.subs| && next.subs != sys.subs :: sys.subs[i].hash != h
  {
    assert RoundOk(cfg, sys, h);
    OneShareMore(sys.st.ss[h], next.st.ss[h], key);
  }

  lemma AnswerSCounts(cfg: Config, sys: System, answers: set<Answer>, h: Digest, key: Key)
    requires cfg.g.Valid() && Inv(cfg, sys) && h in sys.asked && key in sys.asked[h].pks
    requires CountsOk(cfg.me, sys, answers)
    requires Answer(h, key, PayloadSigners(h)) in answers
    ensures CountsOk(cfg.me, DoAnswerS(cfg, sys, h, key), answers)
  {
    var next, taken := AnswerSOutcome(cfg, sys, h, key);
    assert next.bases == sys.bases;
    if taken {
      NotSubmittedBefore(cfg, sys, next, h, key);
      ShareCounts(cfg, sys, next, answers, h, key);
      assert next.asked == sys.asked;
    }
  }

  lemma MoreAnswers(me: Key, sys: System, answers: set<Answer>, more: set<Answer>)
    requires CountsOk(me, sys, answers)
    ensures CountsOk(me, sys, answers + more)
  {
    forall i | 0 <= i < |sys.subs| ensures SubmissionAnswered(me, sys, sys.subs[i].hash, answers + more) {
      assert SubmissionAnswered(me, sys, sys.subs[i].hash, answers);
    }
  }

  lemma PhaseRCounts(cfg: Config, sys: System, ev: Event, answers: set<Answer>)
    requires cfg.g.n > 1 && Enabled(cfg, sys, ev) && InPhaseR(ev) && CountsOk(cfg.me, sys, answers)
    ensures CountsOk(cfg.me, Step(cfg, sys, ev), answers)
  {
    PhaseRAnswers(cfg, sys, ev);
    SameCounts(cfg.me, sys, Step(cfg, sys, ev), answers);
  }

  lemma SameCounts(me: Key, sys: System, next: System, answers: set<Answer>)
    requires CountsOk(me, sys, answers) && next.st.ss == sys.st.ss
    requires next.asked == sys.asked && next.bases == sys.bases && next.subs == sys.subs && next.signed == sys.signed
    ensures CountsOk(me, next, answers)
  {
    forall i | 0 <= i < |next.subs| ensures SubmissionAnswered(me, next, next.subs[i].hash, answers) {
      assert SubmissionAnswered(me, sys, sys.subs[i].hash, answers);
    }
  }

  lemma ResetCounts(me: Key, sys: System, answers: set<Answer>)
    requires CountsOk(me, sys, answers)
    ensures CountsOk(me, sys.(st := Reset(sys.st)), answers)
  {
    var next := sys.(st := Reset(sys.st));
    forall i | 0 <= i < |next.subs| ensures SubmissionAnswered(me, next, next.subs[i].hash, answers) {
      assert SubmissionAnswered(me, sys, sys.subs[i].hash, answers);
    }
  }

  lemma SAnsweredCounts(cfg: Config, sys: System, ev: Event, answers: set<Answer>)
    requires cfg.g.Valid() && Inv(cfg, sys) && Enabled(cfg, sys, ev) && ev.SAnswered?
    requires CountsOk(cfg.me, sys, answers)
    ensures CountsOk(cfg.me, Step(cfg, sys, ev), answers + AnswerOf(ev))
  {
    MoreAnswers(cfg.me, sys, answers, AnswerOf(ev));
    if IsListed(ev.arbiters, ev.key) {
      assert RequestOk(cfg, sys.asked[ev.hash], ev.hash);
      assert Answer(ev.hash, ev.key, PayloadSigners(ev.hash)) in AnswerOf(ev);
      AnswerSCounts(cfg, sys, answers + AnswerOf(ev), ev.hash, ev.key);
    }
  }

  lemma StepCounts(cfg: Config, sys: System, ev: Event, answers: set<Answer>)
    requires cfg.g.Valid() && Inv(cfg, sys) && Enabled(cfg, sys, ev) && CountsOk(cfg.me, sys, answers)
    ensures CountsOk(cfg.me, Step(cfg, sys, ev), answers + AnswerOf(ev))
  {
    if ev.SAnswered? {
      SAnsweredCounts(cfg, sys, ev, answers);
    } else {
      assert answers + AnswerOf(ev) == answers;
      match ev
      case ProposeTx(_) => PhaseRCounts(cfg, sys, ev, answers);
      case OwnNonce(_, _) => PhaseRCounts(cfg, sys, ev, answers);
      case RAnswered(_, _, _, _) => PhaseRCounts(cfg, sys, ev, answers);
      case TimerFired(nonce, arbiters, min, order) => TimerCounts(cfg, sys, answers, nonce, arbiters, min, order);
      case RForged(_, _, _) => ForgedIsNothing(cfg, sys, ev);
      case SForged(_) => ForgedIsNothing(cfg, sys, ev);
      case WasReset => ResetCounts(cfg.me, sys, answers);
    }
  }

  lemma {:induction false} RunCounts(cfg: Config, sys: System, evs: seq<Event>, answers: set<Answer>)
    requires cfg.g.Valid() && Inv(cfg, sys) && ValidRun(cfg, sys, evs) && CountsOk(cfg.me, sys, answers)
    ensures CountsOk(cfg.me, Run(cfg, sys, evs), answers + AnswersOf(evs))
    decreases |evs|
  {
    if evs == [] {
      assert answers + AnswersOf(evs) == answers;
    } else {
      StepKeeps(cfg, sys, evs[0]);
      StepCounts(cfg, sys, evs[0], answers);
      RunCounts(cfg, Step(cfg, sys, evs[0]), evs[1..], answers + AnswerOf(evs[0]));
      assert answers + AnswerOf(evs[0]) + AnswersOf(evs[1..]) == answers + AnswersOf(evs);
    }
  }

  /** In the run, this signer answered this request, requiring so many signers. */
  predicate AnsweredWith(evs: seq<Event>, h: Digest, k: Key, needed: nat) {
    exists i :: 0 <= i < |evs| && AnswersFor(evs[i], h, k) && evs[i].needed == needed
  }

  lemma {:induction false} AnswersHappened(evs: seq<Event>, a: Answer)
    requires a in AnswersOf(evs)
    ensures AnsweredWith(evs, a.hash, a.key, a.needed)
    decreases |evs|
  {
    if a in AnswerOf(evs[0]) {
      assert AnswersFor(evs[0], a.hash, a.key);
    } else {
      AnswersHappened(evs[1..], a);
      var i :| 0 <= i < |evs[1..]| && AnswersFor(evs[1..][i], a.hash, a.key) && evs[1..][i].needed == a.needed;
      assert evs[i + 1] == evs[1..][i];
    }
  }

  /** Over every run with honest signers, arbiters coming and going: a submitted
      transaction asked at least two different keys, all listed at that time, for each of
      which the payload holds one position, naming them unless one is beyond a byte. It
      is signed by as many, the proposer and asked ones; and every one of these but the
      proposer required exactly this number. */
  lemma EverySubmissionIsAQuorum(cfg: Config, evs: seq<Event>, i: nat)
    requires cfg.g.Valid() && ValidRun(cfg, START, evs) && i < |Run(cfg, START, evs).subs|
    ensures var sys := Run(cfg, START, evs);
            var h := sys.subs[i].hash;
            && h in sys.asked && h in sys.bases && h in sys.signed
            && h == TxHash(sys.asked[h].tx) && Distinct(sys.asked[h].pks)
            && BasisOk(cfg.me, sys.asked[h], sys.bases[h]) && SignersFit(cfg.me, sys.asked[h].pks, sys.signed[h])
            && forall k | k in sys.signed[h] && k != cfg.me :: AnsweredWith(evs, h, k, |sys.asked[h].pks|)
  {
    StartInv(cfg);
    RunKeeps(cfg, START, evs);
    RunCounts(cfg, START, evs, {});
    var sys := Run(cfg, START, evs);
    var h, answers := sys.subs[i].hash, {} + AnswersOf(evs);
    assert SubmissionAnswered(cfg.me, sys, h, answers) && SubmissionOk(cfg, sys.asked[h], sys.signed[h], sys.subs[i]);
    assert RequestOk(cfg, sys.asked[h], h) && BasisOk(cfg.me, sys.asked[h], sys.bases[h]);
    forall k | k in sys.signed[h] && k != cfg.me ensures AnsweredWith(evs, h, k, |sys.asked[h].pks|) {
      AnswersHappened(evs, Answer(h, k, PayloadSigners(h)));
    }
  }

  /** While the signers require the same number throughout. */
  predicate RequiresAlways(evs: seq<Event>, needed: nat) {
    forall i | 0 <= i < |evs| && evs[i].SAnswered? :: evs[i].needed == needed
  }

  /** Then every submitted transaction has exactly the required number of signers, all
      different. A round opened with fewer is never submitted. */
  lemma SubmittedWithExactly(cfg: Config, evs: seq<Event>, needed: nat, i: nat)
    requires cfg.g.Valid() && ValidRun(cfg, START, evs) && RequiresAlways(evs, needed)
    requires i < |Run(cfg, START, evs).subs|
    ensures var sys := Run(cfg, START, evs);
            && sys.subs[i].hash in sys.asked && sys.subs[i].hash in sys.signed
            && var r := sys.asked[sys.subs[i].hash];
               && |r.pks| == |r.tx.signers| == |Elements(r.pks)| == needed
               && |sys.signed[sys.subs[i].hash]| == needed
  {
    EverySubmissionIsAQuorum(cfg, evs, i);
    var sys := Run(cfg, START, evs);
    var h := sys.subs[i].hash;
    DistinctCardinality(sys.asked[h].pks);
    var k := SomebodyElse(sys.signed[h], cfg.me);
    var j :| 0 <= j < |evs| && AnswersFor(evs[j], h, k) && evs[j].needed == |sys.asked[h].pks|;
  }

  lemma SomebodyElse(signers: set<Key>, me: Key) returns (k: Key)
    requires |signers| >= 2
    ensures k in signers && k != me
  {
    if forall x | x in signers :: x == me {
      assert signers <= {me};
      SubsetCardinality(signers, {me});
    }
    k :| k in signers && k != me;
  }

  // ---- a proposer that has left the list ------------------------------------------------------

  /** The signers are those that were asked if and only if the proposer stood in the
      arbiter list when its timer fired. If it did not, the proposer is in the place of
      exactly one of those asked. */
  lemma SignersAreTheAskedIff(cfg: Config, evs: seq<Event>, i: nat)
    requires cfg.g.Valid() && ValidRun(cfg, START, evs) && i < |Run(cfg, START, evs).subs|
    ensures var sys := Run(cfg, START, evs);
            var sub := sys.subs[i];
            && sub.hash in sys.asked && sub.hash in sys.bases && sub.hash in sys.signed
            && var pks, signers, listed :=
                 sys.asked[sub.hash].pks, sys.signed[sub.hash], IsListed(sys.bases[sub.hash].list, cfg.me);
               && (signers == Elements(pks) <==> listed)
               && sub.p == JointKey(cfg, signers)
               && (listed && sub.rsum != 0 ==> Verified(cfg, sub))
               && (!listed ==> exists k :: ProposerInPlaceOf(cfg, pks, signers, sub.p, k))
  {
    EverySubmissionIsAQuorum(cfg, evs, i);
    EverySubmissionIsSigned(cfg, evs);
    var sys := Run(cfg, START, evs);
    var sub := sys.subs[i];
    var pks, signers := sys.asked[sub.hash].pks, sys.signed[sub.hash];
    assert SubmissionOk(cfg, sys.asked[sub.hash], signers, sub);
    SignersAreAskedIff(cfg, pks, signers, sub.p);
  }

  /** One of those asked is not among the signers, in its place the proposer is, and the
      joint key is the one of those asked only if the two have the same public key. */
  ghost predicate ProposerInPlaceOf(cfg: Config, pks: seq<Key>, signers: set<Key>, p: int, k: Key)
    requires cfg.g.n > 1
  {
    && k in pks && k !in signers && signers == Elements(pks) - {k} + {cfg.me}
    && (p == JointKey(cfg, Elements(pks)) <==>
          Residue(cfg.secret(cfg.me), cfg.g.n) == Residue(cfg.secret(k), cfg.g.n))
  }

  lemma SignersAreAskedIff(cfg: Config, pks: seq<Key>, signers: set<Key>, p: int)
    requires cfg.g.n > 1 && Distinct(pks) && SignersFit(cfg.me, pks, signers) && p == JointKey(cfg, signers)
    ensures signers == Elements(pks) <==> cfg.me in pks
    ensures cfg.me !in pks ==> exists k :: ProposerInPlaceOf(cfg, pks, signers, p, k)
  {
    DistinctCardinality(pks);
    if cfg.me in pks {
      assert signers <= Elements(pks);
      SubsetCardinality(signers, Elements(pks));
    } else {
      var k := OneMissing(Elements(pks), signers, cfg.me);
      SameJointKeyIff(cfg, Elements(pks) - {k}, cfg.me, k);
      assert Elements(pks) - {k} + {k} == Elements(pks);
      assert ProposerInPlaceOf(cfg, pks, signers, p, k);
    }
  }

  lemma OneMissing(asked: set<Key>, signers: set<Key>, me: Key) returns (k: Key)
    requires me !in asked && me in signers && signers <= asked + {me} && |signers| == |asked|
    ensures k in asked && k !in signers && signers == asked - {k} + {me}
  {
    var others := signers - {me};
    assert others <= asked && |others| == |asked| - 1;
    assert asked == others + (asked - others);
    assert |asked - others| == 1;
    k :| k in asked - others;
    assert asked - others - {k} == {} by {
      assert |asked - others - {k}| == 0;
    }
  }

  /** Exchanging one signer for another leaves the joint key only if they have the same
      public key. */
  lemma SameJointKeyIff(cfg: Config, rest: set<Key>, a: Key, b: Key)
    requires cfg.g.n > 1 && a !in rest && b !in rest
    ensures JointKey(cfg, rest + {a}) == JointKey(cfg, rest + {b}) <==>
              Residue(cfg.secret(a), cfg.g.n) == Residue(cfg.secret(b), cfg.g.n)
  {
    var secrets := map k | k in rest :: cfg.secret(k);
    var sum := MapSum(secrets);
    OneSecretMore(cfg, rest, a);
    OneSecretMore(cfg, rest, b);
    SameShiftedIff(sum, cfg.secret(a), cfg.secret(b), cfg.g.n);
  }

  lemma OneSecretMore(cfg: Config, rest: set<Key>, a: Key)
    requires cfg.g.n > 1 && a !in rest
    ensures JointKey(cfg, rest + {a}) == Residue(MapSum(map k | k in rest :: cfg.secret(k)) + cfg.secret(a), cfg.g.n)
  {
    var secrets := map k | k in rest :: cfg.secret(k);
    MapSumInsert(secrets, a, cfg.secret(a));
    assert (map k | k in rest + {a} :: cfg.secret(k)) == secrets[a := cfg.secret(a)];
  }

  lemma SameShiftedIff(sum: int, a: int, b: int, n: int)
    requires n > 0
    ensures Residue(sum + a, n) == Residue(sum + b, n) <==> Residue(a, n) == Residue(b, n)
  {
    CongRefl(sum, n);
    SameResidueIff(a, b, n);
    SameResidueIff(sum + a, sum + b, n);
    if Cong(a, b, n) {
      CongAdd(sum, sum, a, b, n);
    }
    if Cong(sum + a, sum + b, n) {
      CongAdd(sum + a, sum + b, sum, sum, n);
    }
  }

  lemma SameResidueIff(a: int, b: int, n: int)
    requires n > 0
    ensures Residue(a, n) == Residue(b, n) <==> Cong(a, b, n)
  {
    if Cong(a, b, n) {
      CongSameResidue(a, b, n);
    }
    if Residue(a, n) == Residue(b, n) {
      CongResidue(a, n);
      CongResidue(b, n);
      CongRefl(0, n);
      CongAdd(Residue(a, n), a, 0, 0, n);
      CongTrans(a, Residue(a, n), b, n);
    }
  }

  /** Each answer in the run comes from a signer that requires at least as many signers as
      the timer did that opened the round. */
  ghost predicate RequiredOfAll(sys: System, evs: seq<Event>) {
    forall i | 0 <= i < |evs| && evs[i].SAnswered? && evs[i].hash in sys.bases ::
      0 < sys.bases[evs[i].hash].min <= evs[i].needed
  }

  /** While timer and signers require the same number, the round of a proposer that has
      left the list is never submitted, as it has a signer too few: whatever is submitted
      has exactly the asked signers, as many as required, and verifies unless their nonces
      cancelled out. */
  lemma RequiredOfAllKeepsTheAsked(cfg: Config, evs: seq<Event>, i: nat)
    requires cfg.g.Valid() && ValidRun(cfg, START, evs) && RequiredOfAll(Run(cfg, START, evs), evs)
    requires i < |Run(cfg, START, evs).subs|
    ensures var sys := Run(cfg, START, evs);
            var sub := sys.subs[i];
            && sub.hash in sys.asked && sub.hash in sys.bases && sub.hash in sys.signed
            && IsListed(sys.bases[sub.hash].list, cfg.me) && sys.signed[sub.hash] == Elements(sys.asked[sub.hash].pks)
            && |sys.signed[sub.hash]| == sys.bases[sub.hash].min && (sub.rsum != 0 ==> Verified(cfg, sub))
  {
    EverySubmissionIsAQuorum(cfg, evs, i);
    SignersAreTheAskedIff(cfg, evs, i);
    var sys := Run(cfg, START, evs);
    var h := sys.subs[i].hash;
    var k := SomebodyElse(sys.signed[h], cfg.me);
    var j :| 0 <= j < |evs| && AnswersFor(evs[j], h, k) && evs[j].needed == |sys.asked[h].pks|;
  }

  function KeysOf(list: seq<Key>): set<Key> {
    set k | k in list && k != ""
  }

  lemma {:induction false} KeysAtMost(list: seq<Key>)
    ensures |KeysOf(list)| <= |list|
  {
    if list != [] {
      var init, last := list[..|list| - 1], list[|list| - 1];
      assert list == init + [last];
      KeysAtMost(init);
      assert KeysOf(list) == KeysOf(init) + if last == "" then {} else {last};
    }
  }

  /** The arbiter list from which the signers of a submission were asked has these keys. */
  predicate MadeFrom(sys: System, i: nat, keys: set<Key>)
    requires i < |sys.subs|
  {
    sys.subs[i].hash in sys.bases ==> KeysOf(sys.bases[sys.subs[i].hash].list) == keys
  }

  /** Any two transactions submitted under the same arbiters asked more than a third of
      them both times, and are signed by as many in common; in the middle height range, by
      at most four thirds of an arbiter less. A proposer that has left the list costs the
      signers in common at most one more third of an arbiter than n/3, or one in the
      middle range. */
  lemma SubmittedQuorumsShare(cfg: Config, evs: seq<Event>, i: nat, j: nat, list: seq<Key>, height: nat, hs: Heights)
    requires cfg.g.Valid() && ValidRun(cfg, START, evs) && RequiresAlways(evs, Required(|list|, height, hs))
    requires i < |Run(cfg, START, evs).subs| && j < |Run(cfg, START, evs).subs|
    requires MadeFrom(Run(cfg, START, evs), i, KeysOf(list)) && MadeFrom(Run(cfg, START, evs), j, KeysOf(list))
    ensures var sys := Run(cfg, START, evs);
            var h, h' := sys.subs[i].hash, sys.subs[j].hash;
            && h in sys.asked && h' in sys.asked && h in sys.signed && h' in sys.signed
            && var asked, signers := |Elements(sys.asked[h].pks) * Elements(sys.asked[h'].pks)|, |sys.signed[h] * sys.signed[h']|;
               && (!MiddleEra(height, hs) ==> 3 * asked > |list|)
               && (MiddleEra(height, hs) ==> 3 * asked >= |list| - 4)
               && (IsListed(list, cfg.me) ==> signers == asked)
               && (!MiddleEra(height, hs) ==> 3 * signers >= |list| - 1)
               && (MiddleEra(height, hs) ==> 3 * signers >= |list| - 7)
  {
    var sys := Run(cfg, START, evs);
    var h, h' := sys.subs[i].hash, sys.subs[j].hash;
    SignersWithin(cfg, evs, i, KeysOf(list));
    SignersWithin(cfg, evs, j, KeysOf(list));
    SubmittedWithExactly(cfg, evs, Required(|list|, height, hs), i);
    SubmittedWithExactly(cfg, evs, Required(|list|, height, hs), j);
    KeysAtMost(list);
    Overlap(Elements(sys.asked[h].pks), Elements(sys.asked[h'].pks), KeysOf(list));
    Overlap(sys.signed[h], sys.signed[h'], KeysOf(list) + {cfg.me});
    assert |KeysOf(list) + {cfg.me}| <= |KeysOf(list)| + 1;
  }

  lemma SignersWithin(cfg: Config, evs: seq<Event>, i: nat, keys: set<Key>)
    requires cfg.g.Valid() && ValidRun(cfg, START, evs) && i < |Run(cfg, START, evs).subs|
    requires MadeFrom(Run(cfg, START, evs), i, keys)
    ensures var sys := Run(cfg, START, evs);
            var h := sys.subs[i].hash;
            && h in sys.asked && h in sys.signed && Elements(sys.asked[h].pks) <= keys
            && sys.signed[h] <= keys + {cfg.me}
            && (cfg.me in keys ==> sys.signed[h] == Elements(sys.asked[h].pks))
  {
    EverySubmissionIsAQuorum(cfg, evs, i);
    SignersAreTheAskedIff(cfg, evs, i);
    var sys := Run(cfg, START, evs);
    var h := sys.subs[i].hash;
    forall k | k in Elements(sys.asked[h].pks) ensures k in keys {
      assert IsListed(sys.bases[h].list, k);
      assert k in KeysOf(sys.bases[h].list);
    }
    if cfg.me in keys {
      assert IsListed(sys.bases[h].list, cfg.me);
    }
  }

  // ---- recorded nonces ------------------------------------------------------------------

  /** R entries are write-once: points and keys never change, and a nonce is only
      overwritten by the aggregation that submits its transaction. */
  ghost predicate EntriesKept(sys: System, next: System) {
    && |sys.subs| <= |next.subs|
    && (forall h | h in sys.asked :: h in next.asked && next.asked[h] == sys.asked[h])
    && (forall i | 0 <= i < |sys.subs| :: next.subs[i] == sys.subs[i])
    && forall n, k | n in sys.st.rs && k in sys.st.rs[n] ::
         && n in next.st.rs && k in next.st.rs[n]
         && EntryKept(sys.st.rs[n][k], next.st.rs[n][k], SubmittedSince(sys, next, n))
  }

  ghost predicate EntryKept(e: Krp, e': Krp, spent: bool) {
    e'.r == e.r && e'.p == e.p && (e'.k0 == e.k0 || spent)
  }

  ghost predicate SubmittedSince(sys: System, next: System, n: Digest) {
    exists i :: |sys.subs| <= i < |next.subs| && next.subs[i].hash in next.asked && next.asked[next.subs[i].hash].nonce == n
  }

  lemma TakenEntriesKept(cfg: Config, sys: System, next: System, h: Digest, key: Key)
    requires cfg.g.n > 1 && h in sys.st.ss && h in sys.asked && sys.asked[h].nonce in sys.st.rs
    requires ShareTaken(cfg, sys, next, h, key)
    ensures EntriesKept(sys, next)
  {
    var last := |next.st.ss[h]| == |sys.asked[h].pks|;
    assert last ==> next.subs[|sys.subs|].hash == h && SubmittedSince(sys, next, sys.asked[h].nonce);
    forall i | 0 <= i < |sys.subs| ensures next.subs[i] == sys.subs[i] {
      assert last ==> next.subs[..|sys.subs|][i] == sys.subs[i];
    }
    forall n, k | n in sys.st.rs && k in sys.st.rs[n]
      ensures n in next.st.rs && k in next.st.rs[n]
                 && EntryKept(sys.st.rs[n][k], next.st.rs[n][k], SubmittedSince(sys, next, n))
    {
      if n != sys.asked[h].nonce {
        TakenNonces(cfg, sys, next, h, key, n);
      }
    }
  }

  lemma ExtendedEntriesKept(cfg: Config, sys: System, next: System)
    requires forall n | n in sys.st.rs :: Extends(cfg, sys, next, n)
    requires next.asked == sys.asked && next.subs == sys.subs
    ensures EntriesKept(sys, next)
  {
  }

  lemma SameEntriesKept(sys: System, next: System)
    requires next.st.rs == sys.st.rs && next.subs == sys.subs
    requires forall h | h in sys.asked :: h in next.asked && next.asked[h] == sys.asked[h]
    ensures EntriesKept(sys, next)
  {
  }

  /** What the timer leaves alone, whether it began a round or not. */
  lemma TimerFrame(cfg: Config, sys: System, nonce: Digest, arbiters: seq<Key>, min: nat, order: seq<Key>)
    returns (next: System)
    requires cfg.g.n > 1 && Inv(cfg, sys) && Enabled(cfg, sys, TimerFired(nonce, arbiters, min, order))
    ensures next == DoTimer(cfg, sys, nonce, arbiters, min, order)
    ensures next.st.rs == sys.st.rs && next.subs == sys.subs
    ensures forall h | h in sys.asked :: h in next.asked && next.asked[h] == sys.asked[h]
    ensures forall h | h in sys.st.ss && h in sys.asked :: h in next.st.ss && next.st.ss[h] == sys.st.ss[h]
  {
    var began, r;
    next, began, r := TimerOutcome(cfg, sys, nonce, arbiters, min, order);
    TimerFrameOf(cfg, sys, next, nonce, arbiters, began, r);
  }

  lemma TimerFrameOf(cfg: Config, sys: System, next: System, nonce: Digest, arbiters: seq<Key>, began: bool, r: Request)
    requires cfg.g.n > 1
    requires if began then nonce in sys.st.rs && Opened(cfg, sys, next, nonce, arbiters, r)
             else NotOpened(cfg, sys, next, nonce, arbiters)
    ensures next.st.rs == sys.st.rs && next.subs == sys.subs
    ensures forall h | h in sys.asked :: h in next.asked && next.asked[h] == sys.asked[h]
    ensures forall h | h in sys.st.ss && h in sys.asked :: h in next.st.ss && next.st.ss[h] == sys.st.ss[h]
  {
  }

  lemma AnswerSEntriesKept(cfg: Config, sys: System, hash: Digest, key: Key)
    requires cfg.g.Valid() && Inv(cfg, sys) && hash in sys.asked && key in sys.asked[hash].pks
    ensures EntriesKept(sys, DoAnswerS(cfg, sys, hash, key))
  {
    var next, taken := AnswerSOutcome(cfg, sys, hash, key);
    if taken {
      TakenEntriesKept(cfg, sys, next, hash, key);
    }
  }

  lemma ProposeEntriesKept(cfg: Config, sys: System, tx: Tx)
    requires cfg.g.Valid() && Inv(cfg, sys) && NonceHash(TxHash(tx)) !in sys.used
    ensures EntriesKept(sys, DoPropose(sys, tx))
  {
    ProposeNonces(cfg, sys, tx);
    ExtendedEntriesKept(cfg, sys, DoPropose(sys, tx));
  }

  lemma OwnNonceEntriesKept(cfg: Config, sys: System, nonce: Digest, own: Option<int>)
    requires cfg.g.Valid() && Inv(cfg, sys) && nonce in sys.opening
    ensures EntriesKept(sys, DoOwnNonce(cfg, sys, nonce, own))
  {
    OwnNonceNonces(cfg, sys, nonce, own);
    ExtendedEntriesKept(cfg, sys, DoOwnNonce(cfg, sys, nonce, own));
  }

  lemma AnswerREntriesKept(cfg: Config, sys: System, nonce: Digest, key: Key, k0: int)
    requires cfg.g.Valid() && Inv(cfg, sys) && nonce !in sys.opening
    ensures EntriesKept(sys, DoAnswerR(cfg, sys, nonce, key, k0)) && EntriesKept(sys, sys)
  {
    AnswerRNonces(cfg, sys, nonce, key, k0);
    ExtendedEntriesKept(cfg, sys, DoAnswerR(cfg, sys, nonce, key, k0));
    SameEntriesKept(sys, sys);
  }

  lemma StepEntriesKept(cfg: Config, sys: System, ev: Event)
    requires cfg.g.Valid() && Inv(cfg, sys) && Enabled(cfg, sys, ev) && ev != WasReset
    ensures EntriesKept(sys, Step(cfg, sys, ev))
  {
    match ev
    case ProposeTx(tx) => ProposeEntriesKept(cfg, sys, tx);
    case OwnNonce(nonce, own) => OwnNonceEntriesKept(cfg, sys, nonce, own);
    case RAnswered(nonce, key, k0, arbiters) => AnswerREntriesKept(cfg, sys, nonce, key, k0);
    case TimerFired(nonce, arbiters, min, order) =>
      var next := TimerFrame(cfg, sys, nonce, arbiters, min, order);
      SameEntriesKept(sys, next);
    case SAnswered(hash, key, arbiters, needed) =>
      AnswerSEntriesKept(cfg, sys, hash, key);
      SameEntriesKept(sys, sys);
    case RForged(_, _, _) =>
      ForgedIsNothing(cfg, sys, ev);
      SameEntriesKept(sys, sys);
    case SForged(_) =>
      ForgedIsNothing(cfg, sys, ev);
      SameEntriesKept(sys, sys);
  }

  lemma EntriesKeptTrans(a: System, b: System, c: System)
    requires EntriesKept(a, b) && EntriesKept(b, c)
    requires forall i | 0 <= i < |b.subs| :: b.subs[i].hash in b.asked
    ensures EntriesKept(a, c)
  {
    forall n | SubmittedSince(a, b, n) ensures SubmittedSince(a, c, n) {
      var i :| |a.subs| <= i < |b.subs| && b.subs[i].hash in b.asked && b.asked[b.subs[i].hash].nonce == n;
      assert c.subs[i] == b.subs[i];
    }
  }

  /** Over any stretch of a run without Reset, R entries are write-once. */
  lemma {:induction false} EntriesAreWriteOnce(cfg: Config, sys: System, evs: seq<Event>)
    requires cfg.g.Valid() && Inv(cfg, sys) && ValidRun(cfg, sys, evs) && WasReset !in evs
    ensures EntriesKept(sys, Run(cfg, sys, evs))
    decreases |evs|
  {
    if evs != [] {
      var next := Step(cfg, sys, evs[0]);
      assert evs[0] != WasReset && forall e | e in evs[1..] :: e in evs;
      StepKeeps(cfg, sys, evs[0]);
      StepEntriesKept(cfg, sys, evs[0]);
      EntriesAreWriteOnce(cfg, next, evs[1..]);
      EntriesKeptTrans(sys, next, Run(cfg, sys, evs));
    }
  }

  // ---- the signer accounting ----------------------------------------------------------------

  /** Units a signer was given over the logged rounds. */
  function Given(log: seq<Entry>, me: Key, k: Key): nat {
    if log == [] then 0
    else
      var before, e := Given(log[..|log| - 1], me, k), log[|log| - 1];
      match e
      case Round(arbiters, responders) =>
        before + Occurrences(arbiters, k) * ((if k in responders then 0 else 1) + (if k == me then 0 else 1))
      case ShareAccepted(_) => before
  }

  /** Shares accepted from a signer. */
  function Accepted(log: seq<Entry>, k: Key): nat {
    if log == [] then 0
    else Accepted(log[..|log| - 1], k) + if log[|log| - 1] == ShareAccepted(k) then 1 else 0
  }

  ghost predicate Balanced(cfg: Config, sys: System) {
    forall k: Key | k != "" :: Count(sys.st.unsigned, k) + Accepted(sys.log, k) == Given(sys.log, cfg.me, k)
  }

  lemma TimerBalance(cfg: Config, sys: System, nonce: Digest, arbiters: seq<Key>, min: nat, order: seq<Key>)
    requires cfg.g.n > 1 && Balanced(cfg, sys)
    requires nonce in sys.st.rs ==> Elements(order) == sys.st.rs[nonce].Keys
    ensures Balanced(cfg, DoTimer(cfg, sys, nonce, arbiters, min, order))
  {
    var next := DoTimer(cfg, sys, nonce, arbiters, min, order);
    if next.log != sys.log {
      assert next.log[..|next.log| - 1] == sys.log;
      forall k: Key | k != ""
        ensures Count(next.st.unsigned, k) + Accepted(next.log, k) == Given(next.log, cfg.me, k)
      {
        CreditExact(sys.st.unsigned, arbiters, sys.st.rs[nonce].Keys, cfg.me, k);
      }
    }
  }

  lemma AnswerSBalance(cfg: Config, sys: System, h: Digest, key: Key)
    requires cfg.g.Valid() && Inv(cfg, sys) && h in sys.asked && key in sys.asked[h].pks && Balanced(cfg, sys)
    ensures Balanced(cfg, DoAnswerS(cfg, sys, h, key))
  {
    var next, taken := AnswerSOutcome(cfg, sys, h, key);
    if taken {
      PaidBalance(cfg, sys, next, key);
    }
  }

  lemma PaidBalance(cfg: Config, sys: System, next: System, key: Key)
    requires Balanced(cfg, sys) && Count(sys.st.unsigned, key) >= 1
    requires next.st.unsigned == sys.st.unsigned[key := sys.st.unsigned[key] - 1]
    requires next.log == sys.log + [ShareAccepted(key)]
    ensures Balanced(cfg, next)
  {
    assert next.log[..|next.log| - 1] == sys.log;
  }

  lemma {:induction false} RunBalance(cfg: Config, sys: System, evs: seq<Event>)
    requires cfg.g.Valid() && Inv(cfg, sys) && ValidRun(cfg, sys, evs) && Balanced(cfg, sys)
    ensures Balanced(cfg, Run(cfg, sys, evs))
    decreases |evs|
  {
    if evs != [] {
      StepKeeps(cfg, sys, evs[0]);
      StepBalance(cfg, sys, evs[0]);
      RunBalance(cfg, Step(cfg, sys, evs[0]), evs[1..]);
    }
  }

  /** Over every run, a signer's count is what the rounds gave it minus the shares
      accepted from it, Reset notwithstanding, and for everybody but the proposer it
      is at least the number of rounds that still wait for a share. */
  lemma AccountsBalance(cfg: Config, evs: seq<Event>, k: Key)
    requires cfg.g.Valid() && ValidRun(cfg, START, evs) && k != ""
    ensures var sys := Run(cfg, START, evs);
            && Count(sys.st.unsigned, k) == Given(sys.log, cfg.me, k) - Accepted(sys.log, k)
            && (k != cfg.me ==> Count(sys.st.unsigned, k) >= |Outstanding(sys, k)|)
  {
    StartInv(cfg);
    RunBalance(cfg, START, evs);
    RunKeeps(cfg, START, evs);
  }

  lemma StepBalance(cfg: Config, sys: System, ev: Event)
    requires cfg.g.Valid() && Inv(cfg, sys) && Enabled(cfg, sys, ev) && Balanced(cfg, sys)
    ensures Balanced(cfg, Step(cfg, sys, ev))
  {
    match ev
    case ProposeTx(tx) =>
    case OwnNonce(nonce, own) =>
    case RAnswered(nonce, key, k0, arbiters) =>
      AnswerROnlyTouchesNonces(sys.st, nonce, key, HonestKrp(cfg, key, k0));
    case TimerFired(nonce, arbiters, min, order) => TimerBalance(cfg, sys, nonce, arbiters, min, order);
    case SAnswered(hash, key, arbiters, needed) => AnswerSBalance(cfg, sys, hash, key);
    case RForged(_, _, _) => ForgedIsNothing(cfg, sys, ev);
    case SForged(_) => ForgedIsNothing(cfg, sys, ev);
    case WasReset =>
  }
}
