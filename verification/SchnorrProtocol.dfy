/** The proposer's side of the two-phase Schnorr withdrawal, handler by handler,
    as functions on the value of its maps. The class SchnorrServer runs the same
    handlers on heap objects and is proved to compute these functions. */
module SchnorrProtocol {
  import opened Lists
  import opened Options
  import opened Sums
  import opened SchnorrMath

  /** This arbiter: its key, its private key, and the group it computes in. */
  datatype Config = Config(g: Group, me: Key, secret: Key -> int)

  datatype State = State(
    txs: map<Digest, Tx>,                   // schnorrWithdrawContentsTransaction
    rs: map<Digest, map<Key, Krp>>,         // schnorrWithdrawRequestRContentsSigners
    ss: map<Digest, map<Key, int>>,         // schnorrWithdrawRequestSContentsSigners
    unsigned: map<Key, nat>,                // UnsignedSigners
    held: bool)                             // dns.mux is locked and nobody will unlock it

  const INITIAL := State(map[], map[], map[], map[], false)

  /** The S-phase request that is broadcast (SchnorrWithdrawRequestSProposalContent). */
  datatype Request = Request(nonce: Digest, tx: Tx, pks: seq<Key>, e: int)

  /** A transaction handed to the main chain with its aggregated signature. */
  datatype Submission = Submission(hash: Digest, rsum: int, s: int, p: int)

  datatype Outcome =
    | Blocked            // waits for a lock that is never released
    | Crashed            // writes into a map that is no longer there
    | Rejected
    | AlreadyRecorded
    | Recorded
    | TooFew
    | Asked(request: Request)
    | Submitted(submission: Submission)

  // ---- phase R ---------------------------------------------------------------

  /** generateDistributedSchnorrProposal2: open the proposal, without entries. */
  function Propose(st: State, tx: Tx): (State, Outcome) {
    var nonce := NonceHash(TxHash(tx));
    if st.held then (st, Blocked)
    else if nonce in st.txs then (st, Rejected)
    else (st.(txs := st.txs[nonce := tx], rs := st.rs[nonce := map[]]), Recorded)
  }

  /** recordKRPOfMyself, after the mutex has been released: record the proposer's own
      nonce. If none could be drawn, the proposal stays open without it, but it is not
      broadcast and no S phase is scheduled. */
  function RecordOwn(cfg: Config, st: State, nonce: Digest, own: Option<Krp>): (State, Outcome) {
    if own.None? then (st, Rejected)
    else if nonce !in st.rs then (st, Crashed)
    else (st.(rs := st.rs[nonce := st.rs[nonce][cfg.me := own.value]]), Recorded)
  }

  /** CheckSenderInCurrentArbiters: every answer is tested for this first. */
  predicate IsListed(arbiters: seq<Key>, k: Key) {
    k != "" && k in arbiters
  }

  /** receiveSchnorrWithdrawProposal2Feedback: the first answer of a signer counts. */
  function AnswerR(st: State, nonce: Digest, key: Key, signatureOk: bool, krp: Krp): (State, Outcome) {
    if !signatureOk then (st, Rejected)
    else if st.held then (st, Blocked)
    else if nonce !in st.txs || nonce !in st.rs then (st, Rejected)
    else if key in st.rs[nonce] then (st, AlreadyRecorded)
    else (st.(rs := st.rs[nonce := st.rs[nonce][key := krp]]), Recorded)
  }

  // ---- selecting the signers -------------------------------------------------

  function Rank(unsigned: map<Key, nat>, me: Key, k: Key): int {
    if k == me then -2 else if k !in unsigned then -1 else unsigned[k]
  }

  /** The order the comparator asks for: this arbiter first, then signers without
      an entry in UnsignedSigners, then by ascending count. Ties are free. */
  ghost predicate IntendedOrder(order: seq<Key>, responders: set<Key>, unsigned: map<Key, nat>, me: Key) {
    && Distinct(order)
    && Elements(order) == responders
    && (forall i, j | 0 <= i < j < |order| :: Rank(unsigned, me, order[i]) <= Rank(unsigned, me, order[j]))
  }

  /** Keys are taken from the front until the chosen ones number exactly `min`. */
  function Chosen(order: seq<Key>, min: nat): seq<Key> {
    if 0 < min < |order| then order[..min] else order
  }

  /** The arbiters that were chosen, in the order of the arbiter list, blanks
      skipped. */
  function PickKeys(arbiters: seq<Key>, chosen: set<Key>): seq<Key> {
    if arbiters == [] then []
    else
      var init, last := arbiters[..|arbiters| - 1], arbiters[|arbiters| - 1];
      PickKeys(init, chosen) + if last != "" && last in chosen then [last] else []
  }

  /** Conversion to uint8. */
  function Byte(i: nat): (b: nat)
    ensures i < 256 ==> b == i
  {
    i % 256
  }

  /** Their positions, as the uint8 values written into the payload. */
  function PickIndexes(arbiters: seq<Key>, chosen: set<Key>): seq<nat> {
    if arbiters == [] then []
    else
      var init, last := arbiters[..|arbiters| - 1], arbiters[|arbiters| - 1];
      PickIndexes(init, chosen) + if last != "" && last in chosen then [Byte(|arbiters| - 1)] else []
  }

  // ---- the challenge -----------------------------------------------------------

  function CurveAdd(g: Group, a: int, b: int): int
    requires g.n > 1
  {
    Residue(a + b, g.n)
  }

  function PointsTotal(g: Group, points: map<Key, int>, pks: seq<Key>): int
    requires g.n > 1 && Elements(pks) <= points.Keys
  {
    if pks == [] then 0
    else
      assert pks[|pks| - 1] in Elements(pks);
      CurveAdd(g, PointsTotal(g, points, pks[..|pks| - 1]), points[pks[|pks| - 1]])
  }

  function AllNoncePoints(rs: map<Key, Krp>): map<Key, int> {
    map k | k in rs :: rs[k].r
  }

  function AllPublicKeys(rs: map<Key, Krp>): map<Key, int> {
    map k | k in rs :: rs[k].p
  }

  /** GetE over the collected points, in the order of pks. */
  function Challenge(g: Group, rs: map<Key, Krp>, pks: seq<Key>, m: Digest): int
    requires g.n > 1 && Elements(pks) <= rs.Keys
  {
    g.H(g.X(PointsTotal(g, AllNoncePoints(rs), pks)), PointsTotal(g, AllPublicKeys(rs), pks), m)
  }

  // ---- signer credit -------------------------------------------------------------

  function Count(unsigned: map<Key, nat>, k: Key): nat {
    if k in unsigned then unsigned[k] else 0
  }

  function Bump(unsigned: map<Key, nat>, k: Key): map<Key, nat> {
    unsigned[k := Count(unsigned, k) + 1]
  }

  /** The accounting loop over the arbiter list: one unit for a missing R share,
      and one for everybody but the proposer, who now owes an S share. */
  function Credit(unsigned: map<Key, nat>, arbiters: seq<Key>, responders: set<Key>, me: Key): map<Key, nat> {
    if arbiters == [] then unsigned
    else
      var u, a := Credit(unsigned, arbiters[..|arbiters| - 1], responders, me), arbiters[|arbiters| - 1];
      if a == "" then u
      else
        var u' := if a in responders then u else Bump(u, a);
        if a == me then u' else Bump(u', a)
  }

  // ---- phase S ---------------------------------------------------------------------

  /** ReceiveSendSchnorrWithdrawProposal3: when enough signers answered, choose
      some, compute the challenge, open the S phase and record the proposer's own
      share. Credit is given either way, but not when the new transaction is
      already in process. */
  function StartRound(cfg: Config, st: State, nonce: Digest, arbiters: seq<Key>, min: nat, order: seq<Key>): (State,
                      Outcome)
    requires cfg.g.n > 1
    requires nonce in st.rs ==> Elements(order) == st.rs[nonce].Keys
  {
    if st.held then (st, Blocked)
    else if nonce !in st.txs || nonce !in st.rs then (st, Rejected)
    else
      var responders := st.rs[nonce].Keys;
      var credited := Credit(st.unsigned, arbiters, responders, cfg.me);
      if |responders| < min then (st.(unsigned := credited), TooFew)
      else
        var request := BuildRequest(cfg, st, nonce, arbiters, min, order);
        var hash := TxHash(request.tx);
        if hash in st.txs then (st, Rejected)
        else
          (st.(txs := st.txs[hash := request.tx],
               ss := st.ss[hash := map[cfg.me := request.e * cfg.secret(cfg.me)]],
               unsigned := credited),
           Asked(request))
  }

  function BuildRequest(cfg: Config, st: State, nonce: Digest, arbiters: seq<Key>, min: nat,
                        order: seq<Key>): (r: Request)
    requires cfg.g.n > 1 && nonce in st.txs && nonce in st.rs
    requires Elements(order) == st.rs[nonce].Keys
    ensures Elements(r.pks) <= st.rs[nonce].Keys && "" !in r.pks
  {
    var chosen := Elements(Chosen(order, min));
    var pks := PickKeys(arbiters, chosen);
    PickKeysSound(arbiters, chosen);
    assert chosen <= Elements(order);
    var tx := Tx(st.txs[nonce].base, PickIndexes(arbiters, chosen));
    Request(nonce, tx, pks, Challenge(cfg.g, st.rs[nonce], pks, TxHash(tx)))
  }

  /** The arbiter list names nobody twice; it may have several blanks. */
  predicate NoRepeats(arbiters: seq<Key>) {
    forall i, j | 0 <= i < j < |arbiters| && arbiters[j] != "" :: arbiters[i] != arbiters[j]
  }

  lemma {:induction false} PickKeysSound(arbiters: seq<Key>, chosen: set<Key>)
    ensures forall k :: k in PickKeys(arbiters, chosen) <==> IsListed(arbiters, k) && k in chosen
    ensures NoRepeats(arbiters) ==> Distinct(PickKeys(arbiters, chosen))
  {
    if arbiters != [] {
      var init, last := arbiters[..|arbiters| - 1], arbiters[|arbiters| - 1];
      PickKeysSound(init, chosen);
      assert arbiters == init + [last];
      if NoRepeats(arbiters) && last != "" && last in chosen {
        assert last !in PickKeys(init, chosen);
        DistinctSnoc(PickKeys(init, chosen), last);
      }
      assert PickKeys(init, chosen) + [] == PickKeys(init, chosen);
    }
  }

  lemma {:induction false} OneIndexEach(arbiters: seq<Key>, chosen: set<Key>)
    ensures |PickIndexes(arbiters, chosen)| == |PickKeys(arbiters, chosen)|
  {
    if arbiters != [] {
      OneIndexEach(arbiters[..|arbiters| - 1], chosen);
    }
  }

  ghost predicate Names(arbiters: seq<Key>, indexes: seq<nat>, pks: seq<Key>) {
    |indexes| == |pks| && forall i | 0 <= i < |pks| :: indexes[i] < |arbiters| && arbiters[indexes[i]] == pks[i]
  }

  /** The chosen arbiters among the first n stand at positions that fit a byte. */
  predicate FitBytes(arbiters: seq<Key>, n: nat, chosen: set<Key>)
    requires n <= |arbiters|
  {
    forall i | 0 <= i < n && arbiters[i] != "" && arbiters[i] in chosen :: i < 256
  }

  /** The payload's signer positions name exactly the asked keys, in their order, if and
      only if none of these stands beyond position 255; so they do for up to 256
      arbiters. */
  lemma IndexesNameTheSigners(arbiters: seq<Key>, chosen: set<Key>)
    requires NoRepeats(arbiters)
    ensures Names(arbiters, PickIndexes(arbiters, chosen), PickKeys(arbiters, chosen)) <==>
              FitBytes(arbiters, |arbiters|, chosen)
    ensures |arbiters| <= 256 ==> Names(arbiters, PickIndexes(arbiters, chosen), PickKeys(arbiters, chosen))
  {
    assert arbiters[..|arbiters|] == arbiters;
    IndexesOfPrefix(arbiters, |arbiters|, chosen);
  }

  lemma {:induction false} IndexesOfPrefix(arbiters: seq<Key>, n: nat, chosen: set<Key>)
    requires NoRepeats(arbiters) && n <= |arbiters|
    ensures Names(arbiters, PickIndexes(arbiters[..n], chosen), PickKeys(arbiters[..n], chosen)) <==>
              FitBytes(arbiters, n, chosen)
  {
    if n > 0 {
      var init, last := arbiters[..n - 1], arbiters[n - 1];
      IndexesOfPrefix(arbiters, n - 1, chosen);
      assert arbiters[..n][..n - 1] == init;
      OneIndexEach(init, chosen);
      FitBytesSnoc(arbiters, n, chosen);
      NamesSnoc(arbiters, PickIndexes(init, chosen), PickKeys(init, chosen), Byte(n - 1), last);
      if last != "" {
        ByteNames(arbiters, n - 1);
      }
      assert PickIndexes(init, chosen) + [] == PickIndexes(init, chosen);
      assert PickKeys(init, chosen) + [] == PickKeys(init, chosen);
    }
  }

  lemma FitBytesSnoc(arbiters: seq<Key>, n: nat, chosen: set<Key>)
    requires 0 < n <= |arbiters|
    ensures FitBytes(arbiters, n, chosen) <==>
              FitBytes(arbiters, n - 1, chosen) && (arbiters[n - 1] != "" && arbiters[n - 1] in chosen ==> n - 1 < 256)
  {
  }

  /** A position and its byte name the same arbiter only if they are the same. */
  lemma ByteNames(arbiters: seq<Key>, i: nat)
    requires NoRepeats(arbiters) && i < |arbiters| && arbiters[i] != ""
    ensures Byte(i) < |arbiters| && (arbiters[Byte(i)] == arbiters[i] <==> i < 256)
  {
  }

  lemma NamesSnoc(arbiters: seq<Key>, indexes: seq<nat>, pks: seq<Key>, index: nat, k: Key)
    requires |indexes| == |pks|
    ensures Names(arbiters, indexes + [index], pks + [k]) <==>
              Names(arbiters, indexes, pks) && index < |arbiters| && arbiters[index] == k
  {
    var xs, ks := indexes + [index], pks + [k];
    assert xs[|pks|] == index && ks[|pks|] == k;
    assert forall i | 0 <= i < |pks| :: xs[i] == indexes[i] && ks[i] == pks[i];
  }

  /** The nonces after the aggregation loop has visited `visited`: GetK and Add
      write into the stored big.Int. */
  function Spend(g: Group, rs: map<Key, Krp>, ss: map<Key, int>, rsum: int, visited: set<Key>): map<Key, Krp> {
    map k | k in rs ::
      if k in visited && k in ss then rs[k].(k0 := SignedNonce(g, rsum, rs[k].k0) + ss[k]) else rs[k]
  }

  datatype AnswerS = AnswerS(nonce: Digest, tx: Tx, pks: seq<Key>, key: Key, s: int)

  ghost function NonceEntries(st: State, nonce: Digest): map<Key, Krp> {
    if nonce in st.rs then st.rs[nonce] else map[]
  }

  /** The keys the aggregation loop may have visited: all of them when every share
      has its R entry, otherwise those met before one without. */
  ghost predicate Visited(rs: map<Key, Krp>, ss: map<Key, int>, visited: set<Key>) {
    && visited <= ss.Keys && visited <= rs.Keys
    && (ss.Keys <= rs.Keys ==> visited == ss.Keys)
  }

  /** receiveSchnorrWithdrawProposal3Feedback. The exit for a signer without credit
      leaves the mutex locked. */
  ghost function ReceiveS(cfg: Config, st: State, a: AnswerS, signatureOk: bool, visited: set<Key>): (State, Outcome)
    requires cfg.g.n > 1
  {
    var hash := TxHash(a.tx);
    if !signatureOk then (st, Rejected)
    else if st.held then (st, Blocked)
    else if hash !in st.txs || TxHash(st.txs[hash]) !in st.ss || hash !in st.ss then (st, Rejected)
    else if a.key in st.ss[TxHash(st.txs[hash])] then (st, AlreadyRecorded)
    else if Count(st.unsigned, a.key) < 1 then (st.(held := true), Rejected)
    else TakeShare(cfg, st, a, visited)
  }

  /** The share is recorded and paid for with one unit of credit; when there are as many
      shares as asked keys, they are aggregated. */
  ghost function TakeShare(cfg: Config, st: State, a: AnswerS, visited: set<Key>): (State, Outcome)
    requires cfg.g.n > 1 && TxHash(a.tx) in st.txs && TxHash(a.tx) in st.ss && Count(st.unsigned, a.key) >= 1
  {
    var hash := TxHash(a.tx);
    var shares := st.ss[hash][a.key := a.s];
    var st' := st.(unsigned := st.unsigned[a.key := st.unsigned[a.key] - 1], ss := st.ss[hash := shares]);
    if |shares| != |a.pks| then (st', Recorded)
    else Aggregate(cfg, st', a.nonce, st.txs[hash], shares, visited)
  }

  ghost function Aggregate(cfg: Config, st: State, nonce: Digest, tx: Tx, shares: map<Key, int>,
                           visited: set<Key>): (State, Outcome)
    requires cfg.g.n > 1
  {
    var g, rs := cfg.g, NonceEntries(st, nonce);
    var known := shares.Keys * rs.Keys;
    var rsum := RSum(g, rs, known);
    var st' := if nonce in st.rs then st.(rs := st.rs[nonce := Spend(g, rs, shares, rsum, visited)]) else st;
    if shares.Keys <= rs.Keys then
      var s := Residue(MapSum(Terms(g, rsum, rs, shares)), g.n);
      (st', Submitted(Submission(TxHash(tx), rsum, s, PSum(g, rs, known))))
    else
      (st', Rejected)
  }

  /** Reset forgets the proposals but not the signer credit. */
  function Reset(st: State): State {
    State(map[], map[], map[], st.unsigned, st.held)
  }

  /** Whatever is open is never opened again over what it has collected: neither a proposal
      by proposing its transaction once more, nor a round by a second timer; and where the
      round is known already, no credit is given. */
  lemma NothingIsReopened(cfg: Config, st: State, tx: Tx, nonce: Digest, arbiters: seq<Key>, min: nat, order: seq<Key>)
    requires cfg.g.n > 1 && (nonce in st.rs ==> Elements(order) == st.rs[nonce].Keys)
    ensures NonceHash(TxHash(tx)) in st.txs ==> Propose(st, tx).0 == st
    ensures var (st', o) := StartRound(cfg, st, nonce, arbiters, min, order);
            && st'.rs == st.rs
            && (forall h | h in st.txs :: h in st'.txs && st'.txs[h] == st.txs[h])
            && (forall h | h in st.ss && h in st.txs :: h in st'.ss && st'.ss[h] == st.ss[h])
            && (o.Rejected? ==> st' == st)
  {
  }

  /** The round of the answer is open, and its signer has no share in it yet. */
  predicate Awaited(st: State, a: AnswerS) {
    var h := TxHash(a.tx);
    h in st.txs && st.txs[h] == a.tx && h in st.ss && a.key !in st.ss[h]
  }

  /** Whoever sends it: an awaited answer with a valid signature is taken if and only if
      its signer is in credit, and costs one unit; otherwise it leaves the mutex locked,
      and nothing else ever does. */
  lemma TakenOrLocked(cfg: Config, st: State, a: AnswerS, ok: bool, visited: set<Key>)
    requires cfg.g.n > 1 && (TxHash(a.tx) in st.txs ==> st.txs[TxHash(a.tx)] == a.tx)
    ensures var st', h := ReceiveS(cfg, st, a, ok, visited).0, TxHash(a.tx);
            var credit := a.key in st.unsigned && st.unsigned[a.key] > 0;
            var taken := ok && !st.held && Awaited(st, a) && credit;
            && (st'.held <==> st.held || (ok && Awaited(st, a) && !credit))
            && st'.ss == (if taken then st.ss[h := st.ss[h][a.key := a.s]] else st.ss)
            && st'.unsigned == (if taken then st.unsigned[a.key := st.unsigned[a.key] - 1] else st.unsigned)
            && (!taken ==> st'.rs == st.rs) && st'.txs == st.txs
  {
  }

  /** A taken share is followed by a submission if and only if there are as many shares as
      asked keys and each has its entry from phase R. */
  lemma SubmittedIff(cfg: Config, st: State, a: AnswerS, visited: set<Key>)
    requires cfg.g.n > 1 && TxHash(a.tx) in st.txs && TxHash(a.tx) in st.ss && Count(st.unsigned, a.key) >= 1
    ensures var shares := st.ss[TxHash(a.tx)][a.key := a.s];
            TakeShare(cfg, st, a, visited).1.Submitted? <==>
              |shares| == |a.pks| && forall k | k in shares :: a.nonce in st.rs && k in st.rs[a.nonce]
  {
    var shares := st.ss[TxHash(a.tx)][a.key := a.s];
    assert shares.Keys <= NonceEntries(st, a.nonce).Keys <==>
        forall k | k in shares :: a.nonce in st.rs && k in st.rs[a.nonce];
  }

  /** From then on every handler that takes the mutex waits for ever, Reset or not. */
  lemma LockedForGood(cfg: Config, st: State, tx: Tx, nonce: Digest, key: Key, krp: Krp, arbiters: seq<Key>, min: nat,
                      order: seq<Key>, a: AnswerS, visited: set<Key>)
    requires cfg.g.n > 1 && st.held && (nonce in st.rs ==> Elements(order) == st.rs[nonce].Keys)
    ensures Propose(st, tx) == AnswerR(st, nonce, key, true, krp) == (st, Blocked)
    ensures StartRound(cfg, st, nonce, arbiters, min, order) == ReceiveS(cfg, st, a, true, visited) == (st, Blocked)
    ensures Reset(st).held
  {
  }
}
