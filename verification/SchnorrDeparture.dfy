/** A run in which the proposer leaves the arbiter list between its proposal and its
    timer. Its round is opened for the other chosen signers and is submitted with its own
    share in place of one of theirs. */
module SchnorrDeparture {
  import opened Lists
  import opened Options
  import opened SchnorrMath
  import opened SchnorrProtocol
  import opened SchnorrRuns

  /** The run reaches this state. */
  ghost predicate Reaches(cfg: Config, evs: seq<Event>, sys: System)
    requires cfg.g.n > 1
  {
    ValidRun(cfg, START, evs) && Run(cfg, START, evs) == sys
  }

  /** Three arbiters that are not the proposer. */
  predicate Others(me: Key, a: Key, b: Key, c: Key) {
    "" !in {a, b, c} && me !in {a, b, c} && a != b && b != c && a != c
  }

  function NonceOf(base: nat): Digest {
    NonceHash(TxHash(Tx(base, [])))
  }

  // ---- phase R --------------------------------------------------------------------------------

  /** The proposal is open, these have answered, and nothing has been asked yet. */
  ghost predicate Collected(cfg: Config, sys: System, base: nat, answered: set<Key>) {
    var n := NonceOf(base);
    && !sys.st.held && sys.st.txs == map[n := Tx(base, [])] && sys.st.ss == map[] && sys.st.unsigned == map[]
    && n in sys.st.rs && sys.st.rs[n].Keys == answered && sys.opening == {} && sys.timers == {n}
    && sys.asked == map[] && sys.subs == [] && sys.signed == map[] && sys.bases == map[]
  }

  lemma Opening(cfg: Config, base: nat, k0: int) returns (sys: System)
    requires cfg.g.n > 1
    ensures Reaches(cfg, [ProposeTx(Tx(base, []))] + [OwnNonce(NonceOf(base), Some(k0))], sys)
    ensures Collected(cfg, sys, base, {cfg.me})
  {
    var first, second := ProposeTx(Tx(base, [])), OwnNonce(NonceOf(base), Some(k0));
    assert ValidRun(cfg, START, []) && Run(cfg, START, []) == START && [] + [first] == [first];
    RunSnoc(cfg, START, [], first);
    RunSnoc(cfg, START, [first], second);
    sys := Step(cfg, Step(cfg, START, first), second);
  }

  lemma Answering(cfg: Config, evs: seq<Event>, sys: System, base: nat, answered: set<Key>, k: Key, k0: int,
                  list: seq<Key>) returns (next: System)
    requires cfg.g.n > 1 && Reaches(cfg, evs, sys) && Collected(cfg, sys, base, answered)
    requires IsListed(list, k) && k !in answered
    ensures Reaches(cfg, evs + [RAnswered(NonceOf(base), k, k0, list)], next)
    ensures Collected(cfg, next, base, answered + {k})
  {
    var ev := RAnswered(NonceOf(base), k, k0, list);
    RunSnoc(cfg, START, evs, ev);
    next := Step(cfg, sys, ev);
  }

  // ---- the timer --------------------------------------------------------------------------------

  lemma Picked(me: Key, a: Key, b: Key, c: Key)
    requires Others(me, a, b, c)
    ensures PickKeys([a, b, c], {me, a, b}) == [a, b] && PickIndexes([a, b, c], {me, a, b}) == [0, 1]
  {
    var list, chosen := [a, b, c], {me, a, b};
    assert list[..2] == [a, b] && [a, b][..1] == [a] && [a][..0] == [];
    assert PickKeys([a], chosen) == [a] && PickKeys([a, b], chosen) == [a, b];
    assert PickIndexes([a], chosen) == [0] && PickIndexes([a, b], chosen) == [0, 1];
  }

  lemma Ordered(me: Key, a: Key, b: Key, c: Key)
    requires Others(me, a, b, c)
    ensures IntendedOrder([me, a, b], {me, a, b}, map[], me) && NoRepeats([a, b, c])
    ensures Elements(Chosen([me, a, b], 3)) == {me, a, b} && |{me, a, b}| == 3
  {
    var order := [me, a, b];
    assert order[..2] == [me, a] && [me, a][..1] == [me] && [me][..0] == [];
    assert Distinct([me]) && Distinct([me, a]);
    assert Elements(order) == {me, a, b};
  }

  /** The two others are asked, although the proposer is first in the order. */
  ghost predicate AskedTheOthers(cfg: Config, sys: System, h: Digest, a: Key, b: Key, c: Key) {
    && h in sys.asked && sys.asked[h].pks == [a, b] && |sys.asked[h].tx.signers| == 2
    && h in sys.st.ss && sys.st.ss[h].Keys == {cfg.me}
    && sys.subs == [] && h in sys.bases && sys.bases[h] == Basis([a, b, c], 3)
  }

  lemma BuiltForTheOthers(cfg: Config, st: State, n: Digest, base: nat, a: Key, b: Key, c: Key)
    requires cfg.g.n > 1 && Others(cfg.me, a, b, c) && n in st.txs && n in st.rs && st.txs[n].base == base
    requires st.rs[n].Keys == {cfg.me, a, b}
    ensures Elements([cfg.me, a, b]) == st.rs[n].Keys
    ensures var r := BuildRequest(cfg, st, n, [a, b, c], 3, [cfg.me, a, b]);
            r.pks == [a, b] && r.tx == Tx(base, [0, 1])
  {
    Ordered(cfg.me, a, b, c);
    Picked(cfg.me, a, b, c);
  }

  lemma AskingStep(cfg: Config, sys: System, base: nat, a: Key, b: Key, c: Key)
    requires cfg.g.n > 1 && Others(cfg.me, a, b, c) && Collected(cfg, sys, base, {cfg.me, a, b})
    requires Elements([cfg.me, a, b]) == {cfg.me, a, b} && |{cfg.me, a, b}| == 3
    ensures AskedTheOthers(cfg, DoTimer(cfg, sys, NonceOf(base), [a, b, c], 3, [cfg.me, a, b]),
                           TxHash(Tx(base, [0, 1])), a, b, c)
  {
    BuiltForTheOthers(cfg, sys.st, NonceOf(base), base, a, b, c);
  }

  lemma Asking(cfg: Config, evs: seq<Event>, sys: System, base: nat, a: Key, b: Key, c: Key) returns (next: System)
    requires cfg.g.n > 1 && Reaches(cfg, evs, sys) && Others(cfg.me, a, b, c)
    requires Collected(cfg, sys, base, {cfg.me, a, b})
    ensures Reaches(cfg, evs + [TimerFired(NonceOf(base), [a, b, c], 3, [cfg.me, a, b])], next)
    ensures AskedTheOthers(cfg, next, TxHash(Tx(base, [0, 1])), a, b, c)
  {
    var ev := TimerFired(NonceOf(base), [a, b, c], 3, [cfg.me, a, b]);
    Ordered(cfg.me, a, b, c);
    AskingStep(cfg, sys, base, a, b, c);
    RunSnoc(cfg, START, evs, ev);
    next := Step(cfg, sys, ev);
  }

  // ---- one answer ---------------------------------------------------------------------------------

  ghost predicate SignedByOne(me: Key, sys: System, h: Digest, a: Key, b: Key, c: Key) {
    && |sys.subs| == 1 && sys.subs[0].hash == h && h in sys.signed && sys.signed[h] == {me, a}
    && h in sys.asked && sys.asked[h].pks == [a, b] && h in sys.bases && sys.bases[h] == Basis([a, b, c], 3)
  }

  lemma Taking(cfg: Config, evs: seq<Event>, sys: System, h: Digest, a: Key, list: seq<Key>, needed: nat)
    returns (next: System)
    requires cfg.g.Valid() && Reaches(cfg, evs, sys) && IsListed(list, a)
    requires h in sys.asked && a in sys.asked[h].pks && |sys.asked[h].tx.signers| == needed
    requires h in sys.st.ss && a !in sys.st.ss[h]
    ensures Reaches(cfg, evs + [SAnswered(h, a, list, needed)], next) && next.bases == sys.bases
    ensures sys.asked[h].nonce in sys.st.rs && ShareTaken(cfg, sys, next, h, a)
  {
    StartInv(cfg);
    RunKeeps(cfg, START, evs);
    RunSnoc(cfg, START, evs, SAnswered(h, a, list, needed));
    var taken;
    next, taken := AnswerSOutcome(cfg, sys, h, a);
  }

  /** With it there are as many shares as were asked. */
  lemma TakenIsSubmitted(cfg: Config, sys: System, next: System, h: Digest, a: Key, b: Key, c: Key)
    requires cfg.g.n > 1 && AskedTheOthers(cfg, sys, h, a, b, c) && a != cfg.me
    requires sys.asked[h].nonce in sys.st.rs && ShareTaken(cfg, sys, next, h, a) && next.bases == sys.bases
    ensures SignedByOne(cfg.me, next, h, a, b, c)
  {
    OneShareMore(sys.st.ss[h], next.st.ss[h], a);
    assert |sys.st.ss[h]| == |sys.st.ss[h].Keys|;
    assert next.st.ss[h].Keys == {cfg.me, a};
  }

  // ---- the run ------------------------------------------------------------------------------------

  function Story(cfg: Config, base: nat, a: Key, b: Key, c: Key, x: int, y: int, z: int): seq<Event> {
    var n, list := NonceOf(base), [a, b, c];
    [ProposeTx(Tx(base, []))] + [OwnNonce(n, Some(x))] + [RAnswered(n, a, y, list)] + [RAnswered(n, b, z, list)]
      + [TimerFired(n, list, 3, [cfg.me, a, b])] + [SAnswered(TxHash(Tx(base, [0, 1])), a, list, 2)]
  }

  lemma Collecting(cfg: Config, base: nat, a: Key, b: Key, c: Key, x: int, y: int, z: int) returns (sys: System)
    requires cfg.g.n > 1 && Others(cfg.me, a, b, c)
    ensures var n, list := NonceOf(base), [a, b, c];
            Reaches(cfg, [ProposeTx(Tx(base, []))] + [OwnNonce(n, Some(x))] + [RAnswered(n, a, y, list)]
                           + [RAnswered(n, b, z, list)], sys)
    ensures Collected(cfg, sys, base, {cfg.me, a, b})
  {
    var n, list := NonceOf(base), [a, b, c];
    var evs := [ProposeTx(Tx(base, []))] + [OwnNonce(n, Some(x))];
    sys := Opening(cfg, base, x);
    sys := Answering(cfg, evs, sys, base, {cfg.me}, a, y, list);
    sys := Answering(cfg, evs + [RAnswered(n, a, y, list)], sys, base, {cfg.me} + {a}, b, z, list);
    assert {cfg.me} + {a} + {b} == {cfg.me, a, b};
  }

  /** Three arbiters are listed when the timer fires and three signers required; the
      proposer, chosen with two of them, is no longer listed. The payload names two
      positions, and a signer that requires two answers. The transaction is submitted with
      the shares of the proposer and this signer, under their joint key, although the two
      others were asked. */
  lemma UnlistedProposerIsSubmitted(cfg: Config, base: nat, a: Key, b: Key, c: Key, x: int, y: int, z: int)
    requires cfg.g.Valid() && Others(cfg.me, a, b, c)
    ensures var evs, h := Story(cfg, base, a, b, c, x, y, z), TxHash(Tx(base, [0, 1]));
            && ValidRun(cfg, START, evs)
            && var sys := Run(cfg, START, evs);
               && |sys.subs| == 1 && sys.subs[0].hash == h && h in sys.asked && sys.asked[h].pks == [a, b]
               && h in sys.signed && sys.signed[h] == {cfg.me, a} && sys.subs[0].p == JointKey(cfg, {cfg.me, a})
               && h in sys.bases && !IsListed(sys.bases[h].list, cfg.me) && sys.bases[h].min == 3
  {
    var sys := Telling(cfg, base, a, b, c, x, y, z);
    EverySubmissionIsSigned(cfg, Story(cfg, base, a, b, c, x, y, z));
    assert SubmissionOk(cfg, sys.asked[sys.subs[0].hash], sys.signed[sys.subs[0].hash], sys.subs[0]);
  }

  lemma Telling(cfg: Config, base: nat, a: Key, b: Key, c: Key, x: int, y: int, z: int) returns (last: System)
    requires cfg.g.Valid() && Others(cfg.me, a, b, c)
    ensures Reaches(cfg, Story(cfg, base, a, b, c, x, y, z), last)
    ensures SignedByOne(cfg.me, last, TxHash(Tx(base, [0, 1])), a, b, c)
  {
    var n, h, list := NonceOf(base), TxHash(Tx(base, [0, 1])), [a, b, c];
    var evs := [ProposeTx(Tx(base, []))] + [OwnNonce(n, Some(x))] + [RAnswered(n, a, y, list)]
      + [RAnswered(n, b, z, list)];
    var sys := Collecting(cfg, base, a, b, c, x, y, z);
    var asked := Asking(cfg, evs, sys, base, a, b, c);
    last := Taking(cfg, evs + [TimerFired(n, list, 3, [cfg.me, a, b])], asked, h, a, list, 2);
    TakenIsSubmitted(cfg, asked, last, h, a, b, c);
  }
}
