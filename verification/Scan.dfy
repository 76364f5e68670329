/** Scanning a side chain for withdrawals: the cursor in the database, the loop that
    moves it, and what a crash or a failing call at any point leaves behind. */
module Scan {

  type Hash = string

  const INTERVAL := 1000                 // sideChainHeightInterval
  const CONFIRMATIONS := 6
  const RESET_HEIGHT := 0xFFFF_FFFF      // ResetHeightCode

  /** The height to start at, and the valid withdrawals of every block. */
  datatype Config = Config(start: nat, chain: nat -> set<Hash>)

  /** Where the loop stands: at its head, after the block, after the cursor moved, or
      out of it. */
  datatype Phase = Head | BlockDone | Moved | Out

  datatype Loop = Idle | Running(current: nat, count: nat, chainHeight: nat, phase: Phase)

  datatype System = System(
    stored: nat,                // the height in SideHeightInfo
    loop: Loop,
    pending: set<Hash>,         // SideChainTxs
    settled: set<Hash>,         // moved on to the finished store
    processed: set<nat>,        // blocks whose withdrawals were read
    missed: set<nat>,           // ... and could not be entered, last time
    inspected: set<nat>,        // blocks that were searched for illegal evidence
    dbFailed: bool)             // an update of the stored height has failed

  const START := System(0, Idle, {}, {}, {}, {}, {}, false)

  datatype Event =
    | Begin(chainHeight: nat)
    | Block(rpc: bool, fire: bool)
    | Move(evidence: bool, db: bool)
    | Extras(nft: bool)
    | Finish(db: bool)
    | Crash
    | Settle(hashes: set<Hash>)

  predicate Enabled(sys: System, ev: Event) {
    match ev
    case Begin(chainHeight) => sys.loop.Idle? && sys.stored < chainHeight < RESET_HEIGHT
    case Block(rpc, fire) => sys.loop.Running? && sys.loop.phase.Head? && sys.loop.current < sys.loop.chainHeight
    case Move(evidence, db) => sys.loop.Running? && sys.loop.phase.BlockDone?
    case Extras(nft) => sys.loop.Running? && sys.loop.phase.Moved?
    case Finish(db) =>
      sys.loop.Running? && (sys.loop.phase.Out? || (sys.loop.phase.Head? && sys.loop.current >= sys.loop.chainHeight))
    case Crash => true
    case Settle(hashes) => hashes <= sys.pending
  }

  /** CurrentSideHeight: the new stored height and the height returned. A failing
      update returns 0. */
  function StoreHeight(stored: nat, height: nat, db: bool): (nat, nat) {
    if height > stored then
      if !db then (stored, 0)
      else
        var h := if height == RESET_HEIGHT then 0 else height;
        (h, h)
    else (stored, stored)
  }

  function Step(cfg: Config, sys: System, ev: Event): System
    requires Enabled(sys, ev)
  {
    match ev
    case Begin(chainHeight) =>
      sys.(loop := Running(if sys.stored < cfg.start then cfg.start else sys.stored, 1, chainHeight, Head))
    case Block(rpc, fire) => DoBlock(cfg, sys, rpc, fire)
    case Move(evidence, db) => DoMove(sys, evidence, db)
    case Extras(nft) => sys.(loop := sys.loop.(phase := if nft then Head else Out))
    case Finish(db) =>
      sys.(stored := StoreHeight(sys.stored, sys.loop.current, db).0, loop := Idle,
           dbFailed := sys.dbFailed || (sys.loop.current > sys.stored && !db))
    case Crash => sys.(loop := Idle)
    case Settle(hashes) => sys.(pending := sys.pending - hashes, settled := sys.settled + hashes)
  }

  /** Six blocks behind the cursor. A listener that fails is logged and forgotten. */
  function DoBlock(cfg: Config, sys: System, rpc: bool, fire: bool): System
    requires sys.loop.Running?
  {
    if sys.loop.current < CONFIRMATIONS then sys.(loop := sys.loop.(phase := BlockDone))
    else if !rpc then sys.(loop := sys.loop.(phase := Out))
    else
      var height := sys.loop.current + 1 - CONFIRMATIONS;
      var found := cfg.chain(height);
      var entered := fire || found <= sys.pending;
      sys.(loop := sys.loop.(phase := BlockDone),
           pending := if entered then sys.pending + found else sys.pending,
           processed := sys.processed + {height},
           missed := if entered then sys.missed - {height} else sys.missed + {height})
  }

  function DoMove(sys: System, evidence: bool, db: bool): System
    requires sys.loop.Running?
  {
    if !evidence then sys.(loop := sys.loop.(phase := Out))
    else
      var current, count := sys.loop.current + 1, sys.loop.count + 1;
      var inspected := sys.inspected + {current};
      if count % INTERVAL == 0 then
        var (stored, returned) := StoreHeight(sys.stored, current, db);
        sys.(stored := stored, loop := Running(returned, count, sys.loop.chainHeight, Moved), inspected := inspected,
             dbFailed := sys.dbFailed || (current > sys.stored && !db))
      else
        sys.(loop := Running(current, count, sys.loop.chainHeight, Moved), inspected := inspected)
  }

  // ---- invariants ------------------------------------------------------------------------------

  /** The first block ever read: block 1, or six behind the configured start. */
  function First(cfg: Config): nat {
    if cfg.start < CONFIRMATIONS then 1 else cfg.start + 1 - CONFIRMATIONS
  }

  predicate Covered(cfg: Config, sys: System, x: nat) {
    x in sys.processed && (x !in sys.missed ==> cfg.chain(x) <= sys.pending + sys.settled)
  }

  /** Everything from the first block up to six behind a cursor has been read. */
  predicate CoveredUpTo(cfg: Config, sys: System, cursor: int) {
    forall x | First(cfg) <= x <= cursor - CONFIRMATIONS :: Covered(cfg, sys, x)
  }

  /** Every block behind the start up to a height has been searched for evidence. */
  predicate InspectedUpTo(cfg: Config, sys: System, height: nat) {
    forall x | cfg.start < x <= height :: x in sys.inspected
  }

  predicate Inv(cfg: Config, sys: System) {
    && sys.stored < RESET_HEIGHT && InspectedUpTo(cfg, sys, sys.stored)
    && (forall x | x in sys.processed :: Covered(cfg, sys, x))
    && CoveredUpTo(cfg, sys, sys.stored)
    && (sys.loop.Running? ==> RunningOk(cfg, sys))
    && (!sys.dbFailed ==> forall x | x in sys.processed :: First(cfg) <= x && Below(cfg, sys, x))
  }

  /** What was read before a block was read as well. */
  predicate Below(cfg: Config, sys: System, x: nat) {
    forall y | First(cfg) <= y < x :: y in sys.processed
  }

  /** The height up to six behind which everything has been read. */
  function Cursor(loop: Loop): nat
    requires loop.Running?
  {
    if loop.phase.BlockDone? then loop.current + 1 else loop.current
  }

  predicate RunningOk(cfg: Config, sys: System)
    requires sys.loop.Running?
  {
    && sys.loop.current < RESET_HEIGHT && sys.loop.chainHeight < RESET_HEIGHT
    && (sys.loop.phase.BlockDone? ==> sys.loop.current < sys.loop.chainHeight)
    && CoveredUpTo(cfg, sys, Cursor(sys.loop)) && InspectedUpTo(cfg, sys, sys.loop.current)
    && (!sys.dbFailed ==> sys.loop.current >= cfg.start)
  }

  lemma StillCovered(cfg: Config, sys: System, next: System, cursor: int)
    requires CoveredUpTo(cfg, sys, cursor)
    requires sys.processed == next.processed && sys.missed == next.missed
    requires sys.pending + sys.settled <= next.pending + next.settled
    ensures CoveredUpTo(cfg, next, cursor)
    ensures forall x | Covered(cfg, sys, x) :: Covered(cfg, next, x)
  {
    forall x | Covered(cfg, sys, x) ensures Covered(cfg, next, x) {
    }
  }

  /** A step that reads no block. */
  lemma FrameKeeps(cfg: Config, sys: System, next: System)
    requires Inv(cfg, sys) && next.processed == sys.processed && next.missed == sys.missed
    requires sys.pending + sys.settled <= next.pending + next.settled
    requires !next.dbFailed ==> !sys.dbFailed
    ensures forall x | x in next.processed :: Covered(cfg, next, x)
    ensures !next.dbFailed ==> forall x | x in next.processed :: First(cfg) <= x && Below(cfg, next, x)
  {
    StillCovered(cfg, sys, next, sys.stored);
    if !next.dbFailed {
      forall x | x in next.processed ensures First(cfg) <= x && Below(cfg, next, x) {
        assert Below(cfg, sys, x);
      }
    }
  }

  lemma StepKeeps(cfg: Config, sys: System, ev: Event)
    requires cfg.start < RESET_HEIGHT && Inv(cfg, sys) && Enabled(sys, ev)
    ensures Inv(cfg, Step(cfg, sys, ev))
  {
    var next := Step(cfg, sys, ev);
    if ev.Block? {
      BlockKeeps(cfg, sys, ev.rpc, ev.fire);
    } else {
      FrameKeeps(cfg, sys, next);
      StillCovered(cfg, sys, next, sys.stored);
      if sys.loop.Running? {
        StillCovered(cfg, sys, next, Cursor(sys.loop));
      }
    }
  }

  lemma BlockKeeps(cfg: Config, sys: System, rpc: bool, fire: bool)
    requires Inv(cfg, sys) && Enabled(sys, Block(rpc, fire))
    ensures Inv(cfg, DoBlock(cfg, sys, rpc, fire))
  {
    var next := DoBlock(cfg, sys, rpc, fire);
    if sys.loop.current < CONFIRMATIONS || !rpc {
      FrameKeeps(cfg, sys, next);
      StillCovered(cfg, sys, next, sys.stored);
      StillCovered(cfg, sys, next, sys.loop.current);
    } else {
      var height := sys.loop.current + 1 - CONFIRMATIONS;
      forall x | Covered(cfg, sys, x) || x == height ensures Covered(cfg, next, x) {
      }
      forall x | First(cfg) <= x <= sys.stored - CONFIRMATIONS ensures Covered(cfg, next, x) {
        assert Covered(cfg, sys, x);
      }
      forall x | First(cfg) <= x < height ensures Covered(cfg, sys, x) && x in next.processed {
      }
      if !next.dbFailed {
        forall x | x in next.processed ensures First(cfg) <= x && Below(cfg, next, x) {
          if x != height {
            assert Below(cfg, sys, x);
          }
        }
      }
    }
  }

  // ---- runs -----------------------------------------------------------------------------------

  predicate ValidRun(cfg: Config, sys: System, evs: seq<Event>)
    decreases |evs|
  {
    evs == [] || (Enabled(sys, evs[0]) && ValidRun(cfg, Step(cfg, sys, evs[0]), evs[1..]))
  }

  function Run(cfg: Config, sys: System, evs: seq<Event>): System
    requires ValidRun(cfg, sys, evs)
    decreases |evs|
  {
    if evs == [] then sys else Run(cfg, Step(cfg, sys, evs[0]), evs[1..])
  }

  lemma {:induction false} RunKeeps(cfg: Config, sys: System, evs: seq<Event>)
    requires cfg.start < RESET_HEIGHT && Inv(cfg, sys) && ValidRun(cfg, sys, evs)
    ensures Inv(cfg, Run(cfg, sys, evs))
    decreases |evs|
  {
    if evs != [] {
      StepKeeps(cfg, sys, evs[0]);
      RunKeeps(cfg, Step(cfg, sys, evs[0]), evs[1..]);
    }
  }

  /** Over every run, with crashes, failing calls and failing updates anywhere: every
      block from the first one up to six behind the stored height has been read, and
      each withdrawal in it is pending or settled unless the listener failed when
      the block was last read. While no update of the stored height fails, the blocks
      read form an interval that starts at the first one. */
  lemma NoBlockIsSkipped(cfg: Config, evs: seq<Event>, x: nat)
    requires cfg.start < RESET_HEIGHT && ValidRun(cfg, START, evs)
    ensures var sys := Run(cfg, START, evs);
            && (First(cfg) <= x <= sys.stored - CONFIRMATIONS ==> x in sys.processed)
            && (x in sys.processed && x !in sys.missed ==> cfg.chain(x) <= sys.pending + sys.settled)
            && (!sys.dbFailed && x in sys.processed ==>
                  First(cfg) <= x && forall y | First(cfg) <= y <= x :: y in sys.processed)
  {
    assert Inv(cfg, START);
    RunKeeps(cfg, START, evs);
    var sys := Run(cfg, START, evs);
    if First(cfg) <= x <= sys.stored - CONFIRMATIONS {
      assert Covered(cfg, sys, x);
    }
    if x in sys.processed {
      assert Covered(cfg, sys, x);
      assert !sys.dbFailed ==> Below(cfg, sys, x);
    }
  }

  /** And each block behind the configured start, up to the stored height, has been
      searched for illegal evidence, without the distance of six blocks. */
  lemma NoEvidenceIsSkipped(cfg: Config, evs: seq<Event>, x: nat)
    requires cfg.start < RESET_HEIGHT && ValidRun(cfg, START, evs)
    ensures cfg.start < x <= Run(cfg, START, evs).stored ==> x in Run(cfg, START, evs).inspected
  {
    assert Inv(cfg, START);
    RunKeeps(cfg, START, evs);
  }

  // ---- how far a pass gets, and what it leaves in the database --------------------------------

  /** What may happen in a pass while no update of the stored height fails. */
  predicate InPass(ev: Event) {
    ev.Block? || (ev.Move? && ev.db) || ev.Extras? || ev.Settle?
  }

  /** The turns that get past the search for evidence. */
  function Turns(evs: seq<Event>): nat {
    if evs == [] then 0 else (if evs[0].Move? && evs[0].evidence then 1 else 0) + Turns(evs[1..])
  }

  /** After m turns from a height: the height is stored every thousand turns, counted
      from one. */
  predicate PassAt(sys: System, stored: nat, from: nat, chainHeight: nat, m: nat) {
    && sys.loop.Running? && sys.loop.current == from + m && sys.loop.count == m + 1 && sys.loop.chainHeight == chainHeight
    && (sys.loop.phase.BlockDone? ==> sys.loop.current < chainHeight) && stored <= from
    && chainHeight < RESET_HEIGHT && sys.loop.current < RESET_HEIGHT
    && sys.stored == if m + 1 < 1000 then stored else from + (m + 1) / 1000 * 1000 - 1
  }

  lemma PassStep(cfg: Config, sys: System, ev: Event, stored: nat, from: nat, chainHeight: nat, m: nat)
    requires PassAt(sys, stored, from, chainHeight, m) && Enabled(sys, ev) && InPass(ev)
    ensures PassAt(Step(cfg, sys, ev), stored, from, chainHeight, if ev.Move? && ev.evidence then m + 1 else m)
  {
  }

  lemma {:induction false} PassRun(cfg: Config, sys: System, evs: seq<Event>, stored: nat, from: nat, chainHeight: nat,
                                   m: nat)
    requires PassAt(sys, stored, from, chainHeight, m) && ValidRun(cfg, sys, evs)
    requires forall i | 0 <= i < |evs| :: InPass(evs[i])
    ensures PassAt(Run(cfg, sys, evs), stored, from, chainHeight, m + Turns(evs))
    decreases |evs|
  {
    if evs != [] {
      var m' := if evs[0].Move? && evs[0].evidence then m + 1 else m;
      assert forall i | 0 <= i < |evs[1..]| :: evs[1..][i] == evs[i + 1];
      PassStep(cfg, sys, evs[0], stored, from, chainHeight, m);
      PassRun(cfg, Step(cfg, sys, evs[0]), evs[1..], stored, from, chainHeight, m');
    }
  }

  /** However the calls of a pass go: it moves the cursor one block for each turn, and
      stores it at every thousandth count; so where the program dies, the next pass
      repeats at most 999 turns. At the end of the pass the cursor is stored. */
  lemma StoredEveryThousand(cfg: Config, sys: System, chainHeight: nat, evs: seq<Event>)
    requires Enabled(sys, Begin(chainHeight)) && cfg.start < RESET_HEIGHT
    requires ValidRun(cfg, Step(cfg, sys, Begin(chainHeight)), evs) && forall i | 0 <= i < |evs| :: InPass(evs[i])
    ensures var last, n := Run(cfg, Step(cfg, sys, Begin(chainHeight)), evs), Turns(evs);
            var from := if sys.stored < cfg.start then cfg.start else sys.stored;
            && last.loop.Running? && last.loop.current == from + n
            && last.stored == (if n + 1 < 1000 then sys.stored else from + (n + 1) / 1000 * 1000 - 1)
            && (n >= 999 ==> from + n - last.stored <= 999)
            && Step(cfg, last, Crash).stored == last.stored
            && (Enabled(last, Finish(true)) ==> Step(cfg, last, Finish(true)).stored == from + n)
  {
    var from := if sys.stored < cfg.start then cfg.start else sys.stored;
    var first := Step(cfg, sys, Begin(chainHeight));
    assert PassAt(first, sys.stored, from, chainHeight, 0);
    PassRun(cfg, first, evs, sys.stored, from, chainHeight, 0);
  }

  /** An update that fails sends the cursor back to 0, below the configured start. */
  lemma FailedUpdateGoesBack(cfg: Config, sys: System)
    requires Enabled(sys, Move(true, false))
    ensures var next := Step(cfg, sys, Move(true, false));
            && next.stored == sys.stored && next.loop.Running?
            && next.loop.current == if (sys.loop.count + 1) % 1000 != 0 then sys.loop.current + 1
                                    else if sys.loop.current + 1 > sys.stored then 0 else sys.stored
  {
  }

  predicate IsOut(sys: System) {
    sys.loop.Running? && sys.loop.phase.Out?
  }

  /** A failing call ends the pass, and nothing else does before the chain's height. */
  lemma EndsThePassIff(cfg: Config, sys: System, ev: Event)
    requires Enabled(sys, ev) && sys.loop.Running? && !IsOut(sys)
    ensures IsOut(Step(cfg, sys, ev)) <==>
              || (ev.Block? && !ev.rpc && sys.loop.current >= 6) || (ev.Move? && !ev.evidence) || (ev.Extras? && !ev.nft)
  {
  }

  /** From then on nothing is read until the next pass begins. */
  lemma {:induction false} NothingAfterTheEnd(cfg: Config, sys: System, evs: seq<Event>)
    requires ValidRun(cfg, sys, evs) && (IsOut(sys) || sys.loop.Idle?)
    requires forall i | 0 <= i < |evs| :: !evs[i].Begin?
    ensures var last := Run(cfg, sys, evs);
            && last.processed == sys.processed && last.missed == sys.missed && last.inspected == sys.inspected
            && last.pending + last.settled == sys.pending + sys.settled && (IsOut(last) || last.loop.Idle?)
    decreases |evs|
  {
    if evs != [] {
      assert forall i | 0 <= i < |evs[1..]| :: evs[1..][i] == evs[i + 1];
      NothingAfterTheEnd(cfg, Step(cfg, sys, evs[0]), evs[1..]);
    }
  }

  /** Every listener call succeeds. */
  predicate ListenerWorks(evs: seq<Event>) {
    forall i | 0 <= i < |evs| && evs[i].Block? :: evs[i].fire
  }

  lemma {:induction false} NothingMissed(cfg: Config, sys: System, evs: seq<Event>)
    requires ValidRun(cfg, sys, evs) && ListenerWorks(evs) && sys.missed == {}
    ensures Run(cfg, sys, evs).missed == {}
    decreases |evs|
  {
    if evs != [] {
      assert evs[0].Block? ==> evs[0].fire;
      assert forall i | 0 <= i < |evs[1..]| :: evs[1..][i] == evs[i + 1];
      NothingMissed(cfg, Step(cfg, sys, evs[0]), evs[1..]);
    }
  }

  /** While the listener works, no withdrawal behind the stored height is lost. */
  lemma NoWithdrawalIsLost(cfg: Config, evs: seq<Event>, x: nat)
    requires cfg.start < RESET_HEIGHT && ValidRun(cfg, START, evs) && ListenerWorks(evs)
    ensures var sys := Run(cfg, START, evs);
            First(cfg) <= x <= sys.stored - CONFIRMATIONS ==> cfg.chain(x) <= sys.pending + sys.settled
  {
    NoBlockIsSkipped(cfg, evs, x);
    NothingMissed(cfg, START, evs);
  }

  /** The event reads a block that holds h, and both the call and the listener succeed. */
  predicate Enters(cfg: Config, sys: System, ev: Event, h: Hash) {
    && ev == Block(true, true) && sys.loop.Running? && sys.loop.current >= CONFIRMATIONS
    && h in cfg.chain(sys.loop.current + 1 - CONFIRMATIONS)
  }

  /** Some event of the run does. */
  predicate Entered(cfg: Config, sys: System, evs: seq<Event>, h: Hash)
    requires ValidRun(cfg, sys, evs)
    decreases |evs|
  {
    evs != [] && (Enters(cfg, sys, evs[0], h) || Entered(cfg, Step(cfg, sys, evs[0]), evs[1..], h))
  }

  predicate Known(sys: System, h: Hash) {
    h in sys.pending || h in sys.settled
  }

  lemma StepKnows(cfg: Config, sys: System, ev: Event, h: Hash)
    requires Enabled(sys, ev)
    ensures Known(Step(cfg, sys, ev), h) <==> Known(sys, h) || Enters(cfg, sys, ev, h)
  {
  }

  lemma {:induction false} RunKnows(cfg: Config, sys: System, evs: seq<Event>, h: Hash)
    requires ValidRun(cfg, sys, evs)
    ensures Known(Run(cfg, sys, evs), h) <==> Known(sys, h) || Entered(cfg, sys, evs, h)
    decreases |evs|
  {
    if evs != [] {
      StepKnows(cfg, sys, evs[0], h);
      RunKnows(cfg, Step(cfg, sys, evs[0]), evs[1..], h);
    }
  }

  /** The exact condition, over every run: a withdrawal is pending or settled if and
      only if at some time a block that holds it was read with the call and the
      listener both succeeding. */
  lemma KnownIffEntered(cfg: Config, evs: seq<Event>, h: Hash)
    requires ValidRun(cfg, START, evs)
    ensures h in Run(cfg, START, evs).pending + Run(cfg, START, evs).settled <==> Entered(cfg, START, evs, h)
  {
    RunKnows(cfg, START, evs, h);
  }

  /** So a withdrawal behind the stored height is lost if and only if the listener
      failed every time a block with it was read, although the stored height shows
      that its own block was. */
  lemma LostIff(cfg: Config, evs: seq<Event>, x: nat, h: Hash)
    requires cfg.start < RESET_HEIGHT && ValidRun(cfg, START, evs) && h in cfg.chain(x)
    requires First(cfg) <= x <= Run(cfg, START, evs).stored - CONFIRMATIONS
    ensures x in Run(cfg, START, evs).processed
    ensures !Known(Run(cfg, START, evs), h) <==> !Entered(cfg, START, evs, h)
    ensures !Known(Run(cfg, START, evs), h) ==> x in Run(cfg, START, evs).missed
  {
    NoBlockIsSkipped(cfg, evs, x);
    RunKnows(cfg, START, evs, h);
  }

  /** A listener that fails once loses the withdrawals of its block for good: the
      error is only logged and the cursor moves on. */
  lemma OneFailureLosesABlock(cfg: Config, h: Hash)
    requires cfg.start == 6 && cfg.chain(1) == {h}
    ensures var evs := [Begin(7), Block(true, false), Move(true, true), Extras(true), Finish(true)];
            && ValidRun(cfg, START, evs)
            && var sys := Run(cfg, START, evs);
               && First(cfg) <= 1 <= sys.stored - CONFIRMATIONS
               && h !in sys.pending && h !in sys.settled && sys.loop.Idle? && sys.stored == 7
  {
    var e1, e2, e3, e4, e5 := Begin(7), Block(true, false), Move(true, true), Extras(true), Finish(true);
    var s1 := Step(cfg, START, e1);
    var s2 := Step(cfg, s1, e2);
    var s3 := Step(cfg, s2, e3);
    var s4 := Step(cfg, s3, e4);
    var s5 := Step(cfg, s4, e5);
    assert ValidRun(cfg, s5, []) && Run(cfg, s5, []) == s5;
    RunCons(cfg, s4, e5, []);
    RunCons(cfg, s3, e4, [e5]);
    RunCons(cfg, s2, e3, [e4, e5]);
    RunCons(cfg, s1, e2, [e3, e4, e5]);
    RunCons(cfg, START, e1, [e2, e3, e4, e5]);
    assert [e1] + [e2, e3, e4, e5] == [e1, e2, e3, e4, e5];
    assert [e2] + [e3, e4, e5] == [e2, e3, e4, e5] && [e3] + [e4, e5] == [e3, e4, e5] && [e4] + [e5] == [e4, e5];
    assert [e5] + [] == [e5];
  }

  lemma RunCons(cfg: Config, sys: System, ev: Event, rest: seq<Event>)
    requires Enabled(sys, ev) && ValidRun(cfg, Step(cfg, sys, ev), rest)
    ensures ValidRun(cfg, sys, [ev] + rest)
    ensures Run(cfg, sys, [ev] + rest) == Run(cfg, Step(cfg, sys, ev), rest)
  {
    assert ([ev] + rest)[1..] == rest;
  }

  lemma {:induction false} RunSnoc(cfg: Config, sys: System, evs: seq<Event>, ev: Event)
    requires ValidRun(cfg, sys, evs) && Enabled(Run(cfg, sys, evs), ev)
    ensures ValidRun(cfg, sys, evs + [ev]) && Run(cfg, sys, evs + [ev]) == Step(cfg, Run(cfg, sys, evs), ev)
    decreases |evs|
  {
    if evs == [] {
      RunCons(cfg, sys, ev, []);
      assert [ev] + [] == [ev] && evs + [ev] == [ev];
    } else {
      RunSnoc(cfg, Step(cfg, sys, evs[0]), evs[1..], ev);
      assert [evs[0]] + (evs[1..] + [ev]) == evs + [ev];
      RunCons(cfg, sys, evs[0], evs[1..] + [ev]);
    }
  }

  // ---- the code ---------------------------------------------------------------------------------

  /** How the calls of one turn of the loop go. */
  datatype Answer = Answer(rpc: bool, fire: bool, evidence: bool, db: bool, nft: bool)

  class Monitor {
    var stored: nat
    var pending: set<Hash>
    ghost var model: System      // the same, with what has happened so far

    ghost predicate Valid()
      reads this
    {
      model.stored == stored && model.pending == pending
    }

    constructor ()
      ensures Valid() && model == START
    {
      stored, pending, model := 0, {}, START;
    }

    method CurrentSideHeight(height: nat, db: bool) returns (h: nat)
      modifies this`stored
      ensures (stored, h) == StoreHeight(old(stored), height, db)
    {
      if height > stored {
        var value := if height == RESET_HEIGHT then 0 else height;
        if !db {
          return 0;
        }
        stored := value;
        return value;
      }
      return stored;
    }

    ghost method Happen(cfg: Config, evs: seq<Event>, ev: Event, start: System) returns (evs': seq<Event>)
      requires Reached(cfg, start, evs) && Enabled(model, ev)
      modifies this`model
      ensures evs' == evs + [ev] && Reached(cfg, start, evs')
      ensures model == Step(cfg, old(model), ev)
    {
      RunSnoc(cfg, start, evs, ev);
      model := Step(cfg, model, ev);
      evs' := evs + [ev];
    }

    /** Read the block six behind, unless the call fails. */
    method ReadBlock(cfg: Config, a: Answer, currentHeight: nat, ghost start: System, ghost evs: seq<Event>)
      returns (ok: bool, ghost evs': seq<Event>)
      requires Valid() && Reached(cfg, start, evs)
      requires model.loop.Running? && model.loop.phase.Head?
                 && model.loop.current == currentHeight < model.loop.chainHeight
      modifies this`model, this`pending
      ensures Valid() && Reached(cfg, start, evs')
      ensures model.loop == old(model.loop).(phase := if ok then BlockDone else Out)
    {
      evs' := Happen(cfg, evs, Block(a.rpc, a.fire), start);
      ok := true;
      if currentHeight >= CONFIRMATIONS {
        if !a.rpc {
          ok := false;
          return;
        }
        var found := cfg.chain(currentHeight + 1 - CONFIRMATIONS);
        if a.fire || found <= pending {
          pending := pending + found;
        }
      }
    }

    /** Look for evidence, move the cursor, and store it every thousand blocks. */
    method MoveCursor(cfg: Config, a: Answer, currentHeight: nat, count: nat, ghost start: System, ghost evs: seq<Event>)
      returns (ok: bool, currentHeight': nat, count': nat, ghost evs': seq<Event>)
      requires Valid() && Reached(cfg, start, evs)
      requires model.loop.Running? && model.loop.phase.BlockDone? && model.loop.current == currentHeight
                 && model.loop.count == count
      modifies this`model, this`stored
      ensures Valid() && Reached(cfg, start, evs')
      ensures model.loop == Running(currentHeight', count', old(model.loop.chainHeight), if ok then Moved else Out)
    {
      evs' := Happen(cfg, evs, Move(a.evidence, a.db), start);
      ok, currentHeight', count' := false, currentHeight, count;
      if !a.evidence {
        return;
      }
      ok, currentHeight', count' := true, currentHeight + 1, count + 1;
      if count' % INTERVAL == 0 {
        currentHeight' := CurrentSideHeight(currentHeight', a.db);
      }
    }

    ghost predicate Reached(cfg: Config, start: System, evs: seq<Event>)
      reads this`model
    {
      ValidRun(cfg, start, evs) && model == Run(cfg, start, evs)
    }

    /** One pass of the outer loop, for as many turns as there are answers; then the
        process dies. Whatever happens is a run of the system. */
    method SyncChainData(cfg: Config, chainHeight: nat, answers: seq<Answer>, last: bool) returns (ghost evs: seq<Event>)
      requires Valid() && model.loop.Idle? && chainHeight < RESET_HEIGHT
      modifies this
      ensures Valid() && model.loop.Idle?
      ensures Reached(cfg, old(model), evs)
    {
      ghost var start := model;
      evs := [];
      if stored >= chainHeight {
        return;
      }
      var currentHeight: nat := stored;
      if currentHeight < cfg.start {
        currentHeight := cfg.start;
      }
      evs := Happen(cfg, evs, Begin(chainHeight), start);
      var count: nat := 1;
      var out, i := false, 0;
      while currentHeight < chainHeight && !out && i < |answers|
        invariant 0 <= i <= |answers| && Valid() && Reached(cfg, start, evs)
        invariant model.loop == Running(currentHeight, count, chainHeight, if out then Out else Head)
        decreases |answers| - i
      {
        var a := answers[i];
        i := i + 1;
        var ok;
        ok, evs := ReadBlock(cfg, a, currentHeight, start, evs);
        if !ok {
          out := true;
          continue;
        }
        ok, currentHeight, count, evs := MoveCursor(cfg, a, currentHeight, count, start, evs);
        if !ok {
          out := true;
          continue;
        }
        evs := Happen(cfg, evs, Extras(a.nft), start);
        out := !a.nft;
      }
      if currentHeight < chainHeight && !out {
        evs := Happen(cfg, evs, Crash, start);
        return;
      }
      evs := Happen(cfg, evs, Finish(last), start);
      currentHeight := CurrentSideHeight(currentHeight, last);
    }
  }
}
