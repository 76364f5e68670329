/** Who proposes: the rotation among arbiters by main-chain height, and how an arbiter
    notices that its turn has come or gone. */
module Duty {
  import opened Arithmetic
  import opened Options

  type Key = string

  const UINT32 := 0x1_0000_0000

  /** The two configured eras: original arbiters up to one block before crcOnly, then
      the council's, sorted, up to claim. After that the main node is asked. */
  datatype Eras = Eras(origin: seq<Key>, council: seq<Key>, crcOnly: nat, claim: nat) {
    predicate Valid() {
      origin != [] && council != [] && 0 < crcOnly <= claim < UINT32
    }
  }

  datatype Info = Info(arbiters: seq<Key>, index: nat) | AskMainNode

  /** GetArbitratorGroupInfoByHeight, in 32-bit arithmetic. */
  function GroupInfo(e: Eras, height: nat): Info
    requires e.Valid() && height < UINT32
  {
    var next := (height + 1) % UINT32;
    if next < e.crcOnly then Info(e.origin, height % |e.origin|)
    else if height < e.claim then Info(e.council, (height - e.crcOnly + 1) % UINT32 % |e.council|)
    else AskMainNode
  }

  predicate InOrigin(e: Eras, height: nat) {
    height + 1 < e.crcOnly
  }

  predicate InCouncil(e: Eras, height: nat) {
    e.crcOnly <= height + 1 && height < e.claim
  }

  /** The arbiter on duty, including the first block of the second era, where the
      subtraction wraps around. From the claim on, the main node is asked, except at the
      largest height, whose successor wraps around to the first era. */
  lemma OnDuty(e: Eras, height: nat)
    requires e.Valid() && height < UINT32
    ensures InOrigin(e, height) ==> GroupInfo(e, height) == Info(e.origin, height % |e.origin|)
    ensures InCouncil(e, height) ==> GroupInfo(e, height) == Info(e.council, (height + 1 - e.crcOnly) % |e.council|)
    ensures e.claim <= height < 0xFFFF_FFFF ==> GroupInfo(e, height) == AskMainNode
    ensures height == 0xFFFF_FFFF ==> GroupInfo(e, height) == Info(e.origin, height % |e.origin|)
  {
    if InCouncil(e, height) {
      if height + 1 == e.crcOnly {
        assert (height - e.crcOnly + 1) % UINT32 == 0;
      }
    }
  }

  function Turn(x: int, n: int): int
    requires n > 0
  {
    x % n
  }

  lemma TurnIs(x: int, r: int, q: int, n: int)
    requires n > 0 && 0 <= r < n && x == q * n + r
    ensures Turn(x, n) == r
  {
    var d := x / n - q;
    assert d * n == r - x % n;
    MultipleBounds(d, n);
  }

  /** Among n consecutive numbers one has remainder a ... */
  lemma TurnComes(from: int, n: int, a: int) returns (x: int)
    requires 0 <= a < n
    ensures from <= x < from + n && Turn(x, n) == a
  {
    var q, r := from / n, from % n;
    if a >= r {
      x := from + (a - r);
      TurnIs(x, a, q, n);
    } else {
      x := from + (a - r + n);
      TurnIs(x, a, q + 1, n);
    }
  }

  /** ... and only one. */
  lemma TurnComesOnce(x: int, y: int, n: int)
    requires n > 0 && Turn(x, n) == Turn(y, n) && -n < x - y < n
    ensures x == y
  {
    var d := x / n - y / n;
    assert d * n == x - y;
    MultipleBounds(d, n);
  }

  /** Position a is on duty at a height. */
  predicate HasDuty(e: Eras, height: nat, a: nat)
    requires e.Valid() && height < UINT32
  {
    GroupInfo(e, height).Info? && GroupInfo(e, height).index == a
  }

  lemma DutyIsTurn(e: Eras, height: nat, a: nat, origin: bool)
    requires e.Valid() && height < UINT32 && if origin then InOrigin(e, height) else InCouncil(e, height)
    ensures var (x, n) := if origin then (height, |e.origin|) else (height + 1 - e.crcOnly, |e.council|);
            HasDuty(e, height, a) <==> Turn(x, n) == a
  {
    OnDuty(e, height);
  }

  predicate InEra(e: Eras, height: nat, origin: bool) {
    if origin then InOrigin(e, height) else InCouncil(e, height)
  }

  function Arbiters(e: Eras, origin: bool): seq<Key> {
    if origin then e.origin else e.council
  }

  /** Whoever is on duty is not on duty again before everybody else was. */
  lemma DutyComesOnce(e: Eras, h: nat, h': nat, a: nat, origin: bool)
    requires e.Valid() && h < UINT32 && h' < UINT32 && InEra(e, h, origin) && InEra(e, h', origin)
    requires HasDuty(e, h, a) && HasDuty(e, h', a) && -|Arbiters(e, origin)| < h - h' < |Arbiters(e, origin)|
    ensures h == h'
  {
    DutyIsTurn(e, h, a, origin);
    DutyIsTurn(e, h', a, origin);
    if origin {
      TurnComesOnce(h, h', |e.origin|);
    } else {
      TurnComesOnce(h + 1 - e.crcOnly, h' + 1 - e.crcOnly, |e.council|);
    }
  }

  lemma DutyComes(e: Eras, from: nat, a: nat, origin: bool) returns (height: nat)
    requires e.Valid() && a < |Arbiters(e, origin)| && from + |Arbiters(e, origin)| <= UINT32
    requires forall h | from <= h < from + |Arbiters(e, origin)| :: InEra(e, h, origin)
    ensures from <= height < from + |Arbiters(e, origin)| && HasDuty(e, height, a)
  {
    var shift := if origin then 0 else 1 - e.crcOnly;
    var x := TurnComes(from + shift, |Arbiters(e, origin)|, a);
    height := x - shift;
    assert InEra(e, height, origin);
    DutyIsTurn(e, height, a, origin);
  }

  /** In either era, as many consecutive heights as there are arbiters put every
      arbiter on duty exactly once. */
  lemma EveryoneOnce(e: Eras, from: nat, a: nat, origin: bool) returns (height: nat)
    requires e.Valid() && a < |Arbiters(e, origin)| && from + |Arbiters(e, origin)| <= UINT32
    requires forall h | from <= h < from + |Arbiters(e, origin)| :: InEra(e, h, origin)
    ensures from <= height < from + |Arbiters(e, origin)| && HasDuty(e, height, a)
    ensures forall h | from <= h < from + |Arbiters(e, origin)| && HasDuty(e, h, a) :: h == height
  {
    height := DutyComes(e, from, a, origin);
    forall h | from <= h < from + |Arbiters(e, origin)| && HasDuty(e, h, a) ensures h == height {
      DutyComesOnce(e, h, height, a, origin);
    }
  }

  // ---- noticing a change of duty --------------------------------------------------------------------

  datatype Callback = Callback(height: nat, onDuty: bool)

  /** A check at a height, with the string on duty if the group has one. */
  datatype Check = Check(height: nat, duty: Option<string>)

  datatype Status = Status(flag: bool, calls: seq<Callback>)

  /** Who this arbiter is, how key strings decode, and the height of the repeat. */
  datatype Me = Me(key: nat, decode: string -> Option<nat>, claim: nat)

  predicate Mine(me: Me, duty: string) {
    me.decode(duty) == Some(me.key)
  }

  /** CheckOnDutyStatus. */
  function Observe(me: Me, st: Status, c: Check): Status {
    if c.duty.None? then st
    else
      var decoded := me.decode(c.duty.value);
      if decoded.Some? then
        var mine := decoded.value == me.key;
        if st.flag != mine then Status(mine, st.calls + [Callback(c.height, mine)])
        else if st.flag && mine && me.claim == c.height then Status(st.flag, st.calls + [Callback(c.height, st.flag)])
        else st
      else if st.flag then Status(false, st.calls + [Callback(c.height, false)])
      else st
  }

  function After(me: Me, checks: seq<Check>): Status {
    if checks == [] then Status(false, []) else Observe(me, After(me, checks[..|checks| - 1]), checks[|checks| - 1])
  }

  predicate Alternates(me: Me, st: Status) {
    && (st.calls == [] ==> !st.flag)
    && (st.calls != [] ==> st.calls[0].onDuty && st.calls[|st.calls| - 1].onDuty == st.flag)
    && forall i | 0 < i < |st.calls| ::
         st.calls[i].onDuty != st.calls[i - 1].onDuty || (st.calls[i].onDuty && st.calls[i].height == me.claim)
  }

  /** After any checks that ended with one that had a duty string, the flag says
      whether that string is this arbiter's key; and over any checks the listener is
      told of each change in turn, starting with coming on duty, and told again only
      at the one height where the rules change. */
  lemma {:induction false} DutyIsNoticed(me: Me, checks: seq<Check>)
    ensures Alternates(me, After(me, checks))
    ensures checks != [] && checks[|checks| - 1].duty.Some? ==>
              (After(me, checks).flag <==> Mine(me, checks[|checks| - 1].duty.value))
  {
    if checks != [] {
      DutyIsNoticed(me, checks[..|checks| - 1]);
    }
  }

  /** A check with a duty string is told to the listener if and only if it is a change, or
      this arbiter is on duty, was so before, and the height is the one of the repeat; a
      check without one is not told. */
  predicate Told(me: Me, flag: bool, c: Check) {
    c.duty.Some? &&
    var mine := me.decode(c.duty.value) == Some(me.key);
    mine != flag || (mine && c.height == me.claim)
  }

  /** The last check that had a duty string had this arbiter's. */
  predicate LastMine(me: Me, checks: seq<Check>) {
    exists i :: 0 <= i < |checks| && checks[i].duty.Some? && me.decode(checks[i].duty.value) == Some(me.key)
                && forall j | i < j < |checks| :: checks[j].duty.None?
  }

  /** Over any checks, the flag is that of the last one with a duty string, and the next
      check is told, with its height and duty, exactly when it has to be. */
  lemma {:induction false} TellsExactly(me: Me, checks: seq<Check>, c: Check)
    ensures After(me, checks).flag <==> LastMine(me, checks)
    ensures After(me, checks + [c]).calls
              == After(me, checks).calls
                   + if Told(me, LastMine(me, checks), c) then [Callback(c.height, Mine(me, c.duty.value))] else []
  {
    if checks != [] {
      var init, last := checks[..|checks| - 1], checks[|checks| - 1];
      TellsExactly(me, init, last);
      LastMineSnoc(me, checks);
    }
    assert (checks + [c])[..|checks|] == checks;
  }

  lemma LastMineSnoc(me: Me, checks: seq<Check>)
    requires checks != []
    ensures var init, last := checks[..|checks| - 1], checks[|checks| - 1];
            LastMine(me, checks) <==> if last.duty.Some? then Mine(me, last.duty.value) else LastMine(me, init)
  {
    var n := |checks| - 1;
    var init := checks[..n];
    assert forall j | 0 <= j < n :: init[j] == checks[j];
    if i :| 0 <= i < n && init[i].duty.Some? && me.decode(init[i].duty.value) == Some(me.key)
            && (forall j | i < j < n :: init[j].duty.None?) && checks[n].duty.None? {
      assert checks[i].duty.Some?;
    }
    if i :| 0 <= i < n && checks[i].duty.Some? && me.decode(checks[i].duty.value) == Some(me.key)
            && forall j | i < j < |checks| :: checks[j].duty.None? {
      assert init[i].duty.Some?;
    }
  }

  class Group {
    const me: Me
    var arbitrators: seq<string>
    var onDutyArbitratorIndex: nat
    var isListenerOnDuty: bool
    var isOnDuty: bool                  // the listener's own flag
    ghost var calls: seq<Callback>

    ghost predicate Valid()
      reads this
    {
      isOnDuty == isListenerOnDuty
    }

    ghost function Abs(): Status
      reads this
    {
      Status(isListenerOnDuty, calls)
    }

    constructor (m: Me)
      ensures Valid() && me == m && Abs() == Status(false, [])
    {
      me, arbitrators, onDutyArbitratorIndex := m, [], 0;
      isListenerOnDuty, isOnDuty, calls := false, false, [];
    }

    function OnDutyArbitratorOfMain(): Option<string>
      reads this
    {
      if |arbitrators| == 0 || |arbitrators| <= onDutyArbitratorIndex then None
      else Some(arbitrators[onDutyArbitratorIndex])
    }

    method OnDutyArbitratorChanged(onDuty: bool, ghost height: nat)
      modifies this`isOnDuty, this`calls
      ensures isOnDuty == onDuty && calls == old(calls) + [Callback(height, onDuty)]
    {
      isOnDuty := onDuty;
      calls := calls + [Callback(height, onDuty)];
    }

    method CheckOnDutyStatus(height: nat)
      requires Valid()
      modifies this`isListenerOnDuty, this`isOnDuty, this`calls
      ensures var named := if onDutyArbitratorIndex < |arbitrators| then Some(arbitrators[onDutyArbitratorIndex]) else None;
              Valid() && Abs() == Observe(me, old(Abs()), Check(height, named))
    {
      var duty := OnDutyArbitratorOfMain();
      if duty.None? {
        return;
      }
      var pk := me.decode(duty.value);
      if pk.Some? {
        if (!isListenerOnDuty && me.key == pk.value) || (isListenerOnDuty && me.key != pk.value) {
          isListenerOnDuty := !isListenerOnDuty;
          OnDutyArbitratorChanged(isListenerOnDuty, height);
        } else if isListenerOnDuty && me.key == pk.value && me.claim == height {
          OnDutyArbitratorChanged(isListenerOnDuty, height);
        }
      } else {
        if isListenerOnDuty {
          isListenerOnDuty := !isListenerOnDuty;
          OnDutyArbitratorChanged(isListenerOnDuty, height);
        }
      }
    }
  }
}
