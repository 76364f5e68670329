/** The proposer's Schnorr handlers as the code runs them: on maps held in fields
    and on big integers held in the heap. GetK hands back the stored nonce itself,
    or overwrites it, and the aggregation loop then adds the share into it; every
    method is proved to compute what SchnorrProtocol says of the values. */
module SchnorrServer {
  import opened Lists
  import opened Options
  import opened Sums
  import opened SchnorrMath
  import opened SchnorrProtocol

  /** A big.Int. */
  class BigInt {
    var v: int

    constructor (x: int)
      ensures v == x
    {
      v := x;
    }

    /** z.Add(x, y), which also hands z back. */
    method Add(x: BigInt, y: int)
      modifies this
      ensures v == old(x.v) + y
    {
      v := x.v + y;
    }

    /** z.Sub(x, y). */
    method Sub(x: int, y: BigInt)
      modifies this
      ensures v == x - old(y.v)
    {
      v := x - y.v;
    }
  }

  /** The nonce a signature is made with: the stored integer itself, negated in
      place when the summed nonce point has the wrong y. */
  method GetK(g: Group, qr: bool, k0: BigInt, ghost rsum: int) returns (k: BigInt)
    requires qr == g.Qr(rsum)
    modifies k0
    ensures k == k0 && k.v == SignedNonce(g, rsum, old(k0.v))
  {
    if qr {
      return k0;
    }
    k0.Sub(g.n, k0);
    return k0;
  }

  function Total(g: Group, points: seq<int>): int
    requires g.n > 1
  {
    if points == [] then 0 else CurveAdd(g, Total(g, points[..|points| - 1]), points[|points| - 1])
  }

  /** The challenge for the listed points. */
  method GetE(g: Group, rs: seq<int>, ps: seq<int>, m: Digest) returns (e: int)
    requires g.n > 1 && |rs| == |ps|
    ensures e == g.H(g.X(Total(g, rs)), Total(g, ps), m)
  {
    var r, p := 0, 0;
    for i := 0 to |rs|
      invariant r == Total(g, rs[..i]) && p == Total(g, ps[..i])
    {
      assert rs[..i + 1][..i] == rs[..i] && ps[..i + 1][..i] == ps[..i];
      r := CurveAdd(g, r, rs[i]);
      p := CurveAdd(g, p, ps[i]);
    }
    assert rs[..|rs|] == rs && ps[..|ps|] == ps;
    e := g.H(g.X(r), p, m);
  }

  /** struct KRP: the nonce is shared by reference, the points never change. */
  datatype KrpRef = KrpRef(k0: BigInt, r: int, p: int)

  ghost function NonceObjects(entries: map<Key, KrpRef>): set<BigInt> {
    set k | k in entries :: entries[k].k0
  }

  ghost predicate SamePoints(rs: map<Key, Krp>, entries: map<Key, KrpRef>) {
    rs.Keys == entries.Keys && forall k | k in rs :: rs[k].r == entries[k].r && rs[k].p == entries[k].p
  }

  /** The nonces stored for proposal h: integers of their own, with the values of rs. */
  ghost predicate Stored(owner: map<BigInt, (Digest, Key)>, h: Digest, entries: map<Key, KrpRef>, rs: map<Key, Krp>)
    reads owner.Keys
  {
    && SamePoints(rs, entries)
    && forall k | k in entries ::
         entries[k].k0 in owner && owner[entries[k].k0] == (h, k) && entries[k].k0.v == rs[k].k0
  }

  lemma StoredStays(owner: map<BigInt, (Digest, Key)>, i: BigInt, hk: (Digest, Key), h: Digest,
                    entries: map<Key, KrpRef>, rs: map<Key, Krp>)
    requires Stored(owner, h, entries, rs) && i !in owner
    ensures Stored(owner[i := hk], h, entries, rs)
  {
  }

  lemma StoredGrows(owner: map<BigInt, (Digest, Key)>, i: BigInt, h: Digest, key: Key,
                    entries: map<Key, KrpRef>, rs: map<Key, Krp>, krp: Krp)
    requires Stored(owner, h, entries, rs) && i !in owner && i.v == krp.k0
    ensures Stored(owner[i := (h, key)], h, entries[key := KrpRef(i, krp.r, krp.p)], rs[key := krp])
  {
  }

  ghost predicate OwnNonces(entries: map<Key, KrpRef>) {
    forall k, k' | k in entries && k' in entries && k != k' :: entries[k].k0 != entries[k'].k0
  }

  // ---- the aggregation loops ----------------------------------------------------

  ghost function RestrictTo(ss: map<Key, int>, keys: set<Key>): map<Key, int>
    requires keys <= ss.Keys
  {
    map k | k in keys :: ss[k]
  }

  lemma RestrictToAll(ss: map<Key, int>)
    ensures RestrictTo(ss, ss.Keys) == ss
  {
  }

  lemma SumsGrow(g: Group, rs: map<Key, Krp>, keys: set<Key>, k: Key)
    requires g.n > 1 && keys <= rs.Keys && k in rs && k !in keys
    ensures RSum(g, rs, keys + {k}) == CurveAdd(g, RSum(g, rs, keys), rs[k].r)
    ensures PSum(g, rs, keys + {k}) == CurveAdd(g, PSum(g, rs, keys), rs[k].p)
  {
    var before, pbefore := NoncePoints(rs, keys), PublicKeys(rs, keys);
    assert NoncePoints(rs, keys + {k}) == before[k := rs[k].r];
    assert PublicKeys(rs, keys + {k}) == pbefore[k := rs[k].p];
    MapSumInsert(before, k, rs[k].r);
    MapSumInsert(pbefore, k, rs[k].p);
    ResidueAdd(MapSum(before), rs[k].r, g.n);
    ResidueAdd(MapSum(pbefore), rs[k].p, g.n);
  }

  lemma TermsGrow(g: Group, rsum: int, rs: map<Key, Krp>, ss: map<Key, int>, keys: set<Key>, k: Key)
    requires keys <= ss.Keys && keys <= rs.Keys && k in ss && k in rs && k !in keys
    ensures MapSum(Terms(g, rsum, rs, RestrictTo(ss, keys + {k})))
              == MapSum(Terms(g, rsum, rs, RestrictTo(ss, keys))) + SignedNonce(g, rsum, rs[k].k0) + ss[k]
  {
    var before := Terms(g, rsum, rs, RestrictTo(ss, keys));
    var term := SignedNonce(g, rsum, rs[k].k0) + ss[k];
    assert Terms(g, rsum, rs, RestrictTo(ss, keys + {k})) == before[k := term];
    MapSumInsert(before, k, term);
  }

  /** First loop: add up the points of the signers that have both entries, in
      whatever order the map is walked. */
  method AddUpPoints(g: Group, ghost rs: map<Key, Krp>, entries: map<Key, KrpRef>, shares: map<Key, int>)
    returns (r: int, p: int)
    requires g.n > 1 && SamePoints(rs, entries)
    ensures r == RSum(g, rs, shares.Keys * rs.Keys) && p == PSum(g, rs, shares.Keys * rs.Keys)
  {
    var todo := shares.Keys;
    ghost var seen := {};
    r, p := 0, 0;
    assert NoncePoints(rs, {}) == map[] && PublicKeys(rs, {}) == map[];
    while todo != {}
      invariant todo <= shares.Keys && seen <= rs.Keys
      invariant forall k :: k in seen <==> k in shares && k in entries && k !in todo
      invariant r == RSum(g, rs, seen) && p == PSum(g, rs, seen)
      decreases todo
    {
      var k :| k in todo;
      todo := todo - {k};
      if k in entries {
        r, p := AddPoints(g, rs, seen, k, entries[k], r, p);
        seen := seen + {k};
      }
    }
    assert seen == shares.Keys * rs.Keys;
  }

  method AddPoints(g: Group, ghost rs: map<Key, Krp>, ghost seen: set<Key>, ghost k: Key, e: KrpRef, r: int, p: int)
    returns (r': int, p': int)
    requires g.n > 1 && seen <= rs.Keys && k in rs && k !in seen && rs[k].r == e.r && rs[k].p == e.p
    requires r == RSum(g, rs, seen) && p == PSum(g, rs, seen)
    ensures r' == RSum(g, rs, seen + {k}) && p' == PSum(g, rs, seen + {k})
  {
    SumsGrow(g, rs, seen, k);
    r', p' := CurveAdd(g, r, e.r), CurveAdd(g, p, e.p);
  }

  /** The integers as the second loop leaves them. */
  ghost predicate SpentTo(g: Group, rsum: int, rs: map<Key, Krp>, shares: map<Key, int>, visited: set<Key>,
                          entries: map<Key, KrpRef>)
    requires visited <= shares.Keys && rs.Keys == entries.Keys
    reads NonceObjects(entries)
  {
    forall k | k in entries ::
      entries[k].k0.v == if k in visited then SignedNonce(g, rsum, rs[k].k0) + shares[k] else rs[k].k0
  }

  lemma SpentStored(g: Group, rsum: int, rs: map<Key, Krp>, shares: map<Key, int>, visited: set<Key>,
                    entries: map<Key, KrpRef>, owner: map<BigInt, (Digest, Key)>, h: Digest)
    requires visited <= shares.Keys && SamePoints(rs, entries)
    requires SpentTo(g, rsum, rs, shares, visited, entries)
    requires forall k | k in entries :: entries[k].k0 in owner && owner[entries[k].k0] == (h, k)
    ensures Stored(owner, h, entries, Spend(g, rs, shares, rsum, visited))
  {
  }

  /** One turn of the second loop: only the nonce of this signer changes. */
  method SpendNonce(g: Group, rsum: int, ghost rs: map<Key, Krp>, entries: map<Key, KrpRef>, shares: map<Key, int>,
                    ghost visited: set<Key>, key: Key, s: int) returns (s': int)
    requires visited <= shares.Keys && rs.Keys == entries.Keys && OwnNonces(entries)
    requires SpentTo(g, rsum, rs, shares, visited, entries)
    requires key in entries && key in shares && key !in visited && visited <= rs.Keys
    requires s == MapSum(Terms(g, rsum, rs, RestrictTo(shares, visited)))
    modifies entries[key].k0
    ensures s' == MapSum(Terms(g, rsum, rs, RestrictTo(shares, visited + {key})))
    ensures SpentTo(g, rsum, rs, shares, visited + {key}, entries)
  {
    assert entries[key].k0.v == rs[key].k0;
    var k := GetK(g, g.Qr(rsum), entries[key].k0, rsum);
    k.Add(k, shares[key]);
    s' := s + k.v;
    TermsGrow(g, rsum, rs, shares, visited, key);
    assert forall k' | k' in entries && k' != key :: entries[k'].k0 != entries[key].k0;
  }

  /** Second loop: sign-adjust every stored nonce, add the share into it, and add
      the result to the running sum, in whatever order the map is walked; give up
      at a share without nonce. */
  method AddUpShares(g: Group, rsum: int, ghost rs: map<Key, Krp>, entries: map<Key, KrpRef>, shares: map<Key, int>)
    returns (complete: bool, s: int, ghost visited: set<Key>)
    requires g.n > 1 && OwnNonces(entries)
    requires rs.Keys == entries.Keys && SpentTo(g, rsum, rs, shares, {}, entries)
    modifies NonceObjects(entries)
    ensures Visited(rs, shares, visited)
    ensures complete <==> shares.Keys <= entries.Keys
    ensures complete ==> s == MapSum(Terms(g, rsum, rs, shares))
    ensures SpentTo(g, rsum, rs, shares, visited, entries)
  {
    s := 0;
    var todo := shares.Keys;
    visited := {};
    assert Terms(g, rsum, rs, RestrictTo(shares, {})) == map[];
    while todo != {}
      invariant visited <= shares.Keys && visited <= entries.Keys && visited + todo == shares.Keys && visited !! todo
      invariant s == MapSum(Terms(g, rsum, rs, RestrictTo(shares, visited)))
      invariant SpentTo(g, rsum, rs, shares, visited, entries)
      decreases todo
    {
      var key :| key in todo;
      if key !in entries {
        complete := false;
        return;
      }
      s := SpendNonce(g, rsum, rs, entries, shares, visited, key, s);
      visited, todo := visited + {key}, todo - {key};
    }
    RestrictToAll(shares);
    complete := true;
  }

  // ---- the loops of the selection --------------------------------------------------

  /** Take keys from the front until exactly `min` are taken. */
  method Choose(order: seq<Key>, min: nat) returns (chosen: set<Key>)
    requires Distinct(order)
    ensures chosen == Elements(Chosen(order, min))
  {
    chosen := {};
    var i := 0;
    while i < |order|
      invariant 0 <= i <= |order| && chosen == Elements(order[..i])
      invariant 0 < min ==> i < min
    {
      ElementsSnoc(order[..i], order[i]);
      assert order[..i + 1] == order[..i] + [order[i]];
      chosen := chosen + {order[i]};
      i := i + 1;
      DistinctTake(order, i);
      DistinctCardinality(order[..i]);
      if |chosen| == min {
        return;
      }
    }
    assert order[..i] == order;
  }

  /** Walk the arbiter list and keep the chosen arbiters with their positions. */
  method PickSigners(arbiters: seq<Key>, chosen: set<Key>) returns (pks: seq<Key>, indexes: seq<nat>)
    ensures pks == PickKeys(arbiters, chosen) && indexes == PickIndexes(arbiters, chosen)
  {
    pks, indexes := [], [];
    for i := 0 to |arbiters|
      invariant pks == PickKeys(arbiters[..i], chosen) && indexes == PickIndexes(arbiters[..i], chosen)
    {
      assert arbiters[..i + 1][..i] == arbiters[..i];
      if |arbiters[i]| != 0 && arbiters[i] in chosen {
        indexes := indexes + [Byte(i)];
        pks := pks + [arbiters[i]];
      }
    }
    assert arbiters[..|arbiters|] == arbiters;
  }

  /** The accounting loop at the end of the S-phase opening. */
  method GiveCredit(unsigned: map<Key, nat>, arbiters: seq<Key>, responders: set<Key>, me: Key) returns (u: map<Key, nat>)
    ensures u == Credit(unsigned, arbiters, responders, me)
  {
    u := unsigned;
    for i := 0 to |arbiters|
      invariant u == Credit(unsigned, arbiters[..i], responders, me)
    {
      var a := arbiters[i];
      assert arbiters[..i + 1][..i] == arbiters[..i];
      if |a| == 0 {
        continue;
      }
      if a !in responders {
        u := if a in u then u[a := u[a] + 1] else u[a := 1];
      }
      if a == me {
        continue;
      }
      u := if a in u then u[a := u[a] + 1] else u[a := 1];
    }
    assert arbiters[..|arbiters|] == arbiters;
  }

  /** Collect the points of the asked signers ... */
  method GatherPoints(g: Group, entries: map<Key, KrpRef>, ghost vs: map<Key, Krp>, pks: seq<Key>)
    returns (rpoints: seq<int>, ppoints: seq<int>)
    requires g.n > 1 && SamePoints(vs, entries) && Elements(pks) <= vs.Keys
    ensures |rpoints| == |ppoints|
    ensures Total(g, rpoints) == PointsTotal(g, AllNoncePoints(vs), pks)
    ensures Total(g, ppoints) == PointsTotal(g, AllPublicKeys(vs), pks)
  {
    rpoints, ppoints := [], [];
    for i := 0 to |pks|
      invariant |rpoints| == |ppoints| && Elements(pks[..i]) <= vs.Keys
      invariant Total(g, rpoints) == PointsTotal(g, AllNoncePoints(vs), pks[..i])
      invariant Total(g, ppoints) == PointsTotal(g, AllPublicKeys(vs), pks[..i])
    {
      NextPoint(g, AllNoncePoints(vs), pks, i);
      NextPoint(g, AllPublicKeys(vs), pks, i);
      rpoints := Gathered(g, rpoints, entries[pks[i]].r);
      ppoints := Gathered(g, ppoints, entries[pks[i]].p);
    }
    assert pks[..|pks|] == pks;
  }

  /** ... and hash them. */
  method ComputeChallenge(g: Group, entries: map<Key, KrpRef>, ghost vs: map<Key, Krp>, pks: seq<Key>, m: Digest)
    returns (e: int)
    requires g.n > 1 && SamePoints(vs, entries) && Elements(pks) <= vs.Keys
    ensures e == Challenge(g, vs, pks, m)
  {
    var rpoints, ppoints := GatherPoints(g, entries, vs, pks);
    e := GetE(g, rpoints, ppoints, m);
  }

  lemma NextPoint(g: Group, points: map<Key, int>, pks: seq<Key>, i: nat)
    requires g.n > 1 && Elements(pks) <= points.Keys && i < |pks|
    ensures Elements(pks[..i]) <= points.Keys && Elements(pks[..i + 1]) <= points.Keys && pks[i] in points
    ensures PointsTotal(g, points, pks[..i + 1]) == CurveAdd(g, PointsTotal(g, points, pks[..i]), points[pks[i]])
  {
    assert forall j | 0 <= j < |pks| :: pks[j] in Elements(pks);
    assert pks[..i + 1][..i] == pks[..i];
  }

  method Gathered(g: Group, points: seq<int>, p: int) returns (points': seq<int>)
    requires g.n > 1
    ensures points' == points + [p] && Total(g, points') == CurveAdd(g, Total(g, points), p)
  {
    points' := points + [p];
    assert points'[..|points|] == points;
  }

  // ---- schnorrWithdrawRequestRContentsSigners -------------------------------------------

  /** The nonces of all open proposals. `model` is their value, `owner` says whose
      entry an integer is: every stored nonce is an integer of its own. */
  class Nonces {
    var rs: map<Digest, map<Key, KrpRef>>
    ghost var model: map<Digest, map<Key, Krp>>
    ghost var owner: map<BigInt, (Digest, Key)>

    ghost predicate Valid()
      reads this, owner.Keys
    {
      model.Keys == rs.Keys && forall h | h in rs :: Stored(owner, h, rs[h], model[h])
    }

    constructor ()
      ensures Valid() && model == map[] && owner == map[]
    {
      rs, model, owner := map[], map[], map[];
    }

    method Open(nonce: Digest)
      requires Valid()
      modifies this
      ensures Valid() && owner == old(owner) && model == old(model)[nonce := map[]]
    {
      rs := rs[nonce := map[]];
      model := model[nonce := map[]];
    }

    /** Put a new integer into the entries of a proposal, over a former one if there is
        any. */
    method Record(nonce: Digest, key: Key, krp: Krp)
      requires Valid() && nonce in model
      modifies this
      ensures Valid() && fresh(owner.Keys - old(owner.Keys))
      ensures model == old(model)[nonce := old(model)[nonce][key := krp]]
    {
      var k0 := new BigInt(krp.k0);
      ghost var grown := owner[k0 := (nonce, key)];
      forall h | h in rs ensures Stored(grown, h, rs[h], model[h]) {
        StoredStays(owner, k0, (nonce, key), h, rs[h], model[h]);
      }
      var entries := rs[nonce][key := KrpRef(k0, krp.r, krp.p)];
      StoredGrows(owner, k0, nonce, key, rs[nonce], model[nonce], krp);
      rs := rs[nonce := entries];
      owner := grown;
      model := model[nonce := model[nonce][key := krp]];
    }

    /** The sums of the points of the signers. */
    method SumPoints(g: Group, nonce: Digest, shares: map<Key, int>) returns (r: int, p: int)
      requires Valid() && g.n > 1 && nonce in model
      ensures r == RSum(g, model[nonce], shares.Keys * model[nonce].Keys)
      ensures p == PSum(g, model[nonce], shares.Keys * model[nonce].Keys)
    {
      assert Stored(owner, nonce, rs[nonce], model[nonce]);
      r, p := AddUpPoints(g, model[nonce], rs[nonce], shares);
    }

    /** Aggregate the shares, in place on the stored nonces: when every share has its
        nonce, the sum of the adjusted terms. */
    method SumShares(g: Group, rsum: int, nonce: Digest, shares: map<Key, int>)
      returns (complete: bool, s: int, ghost visited: set<Key>)
      requires Valid() && g.n > 1 && nonce in model
      modifies this`model, owner.Keys
      ensures Valid() && Visited(old(model[nonce]), shares, visited)
      ensures complete <==> shares.Keys <= old(model[nonce]).Keys
      ensures complete ==> s == MapSum(Terms(g, rsum, old(model[nonce]), shares))
      ensures model == old(model)[nonce := Spend(g, old(model[nonce]), shares, rsum, visited)]
    {
      var entries := rs[nonce];
      ghost var vs := model[nonce];
      assert Stored(owner, nonce, entries, vs);
      assert NonceObjects(entries) <= owner.Keys;
      complete, s, visited := AddUpShares(g, rsum, vs, entries, shares);
      ghost var after := model[nonce := Spend(g, vs, shares, rsum, visited)];
      forall h | h in rs ensures Stored(owner, h, rs[h], after[h]) {
        if h == nonce {
          SpentStored(g, rsum, vs, shares, visited, entries, owner, nonce);
        } else {
          assert old(Stored(owner, h, rs[h], model[h]));
        }
      }
      model := after;
    }

    method Clear()
      requires Valid()
      modifies this
      ensures Valid() && model == map[] && owner == old(owner)
    {
      rs, model := map[], map[];
    }
  }

  // ---- the handlers ------------------------------------------------------------------

  class Server {
    const cfg: Config
    const nonces: Nonces
    var txs: map<Digest, Tx>
    var ss: map<Digest, map<Key, int>>
    var unsigned: map<Key, nat>
    var held: bool

    ghost predicate Valid()
      reads this, nonces, nonces.owner.Keys
    {
      cfg.g.n > 1 && nonces.Valid()
    }

    /** The value of the maps. */
    ghost function Abs(): State
      reads this, nonces
    {
      State(txs, nonces.model, ss, unsigned, held)
    }

    constructor (c: Config)
      requires c.g.n > 1
      ensures Valid() && cfg == c && Abs() == INITIAL && fresh(nonces) && nonces.owner == map[]
    {
      cfg, txs, ss, unsigned, held := c, map[], map[], map[], false;
      nonces := new Nonces();
    }

    method Propose(tx: Tx) returns (o: Outcome)
      requires Valid()
      modifies this, nonces
      ensures Valid() && nonces.owner == old(nonces.owner)
      ensures (Abs(), o) == SchnorrProtocol.Propose(old(Abs()), tx)
    {
      var nonce := NonceHash(TxHash(tx));
      if held {
        return Blocked;
      }
      if nonce in txs {
        return Rejected;
      }
      txs := txs[nonce := tx];
      nonces.Open(nonce);
      o := Recorded;
    }

    /** `own` is what drawing this arbiter's nonce gives. */
    method RecordKRPOfMyself(nonce: Digest, own: Option<Krp>) returns (o: Outcome)
      requires Valid()
      modifies nonces
      ensures Valid() && fresh(nonces.owner.Keys - old(nonces.owner.Keys))
      ensures (Abs(), o) == SchnorrProtocol.RecordOwn(cfg, old(Abs()), nonce, own)
    {
      if own.None? {
        return Rejected;
      }
      if nonce !in nonces.rs {
        return Crashed;
      }
      nonces.Record(nonce, cfg.me, own.value);
      o := Recorded;
    }

    method AnswerR(nonce: Digest, key: Key, signatureOk: bool, krp: Krp) returns (o: Outcome)
      requires Valid()
      modifies this, nonces
      ensures Valid() && fresh(nonces.owner.Keys - old(nonces.owner.Keys))
      ensures (Abs(), o) == SchnorrProtocol.AnswerR(old(Abs()), nonce, key, signatureOk, krp)
    {
      if !signatureOk {
        return Rejected;
      }
      if held {
        return Blocked;
      }
      if nonce !in txs || nonce !in nonces.rs {
        return Rejected;
      }
      assert Stored(nonces.owner, nonce, nonces.rs[nonce], nonces.model[nonce]);
      if key in nonces.rs[nonce] {
        return AlreadyRecorded;
      }
      nonces.Record(nonce, key, krp);
      o := Recorded;
    }

    /** `order` is the result of sorting the responders. */
    method StartRound(nonce: Digest, arbiters: seq<Key>, min: nat, order: seq<Key>) returns (o: Outcome)
      requires Valid() && Distinct(order) && (nonce in nonces.model ==> Elements(order) == nonces.model[nonce].Keys)
      modifies this
      ensures Valid()
      ensures (Abs(), o) == SchnorrProtocol.StartRound(cfg, old(Abs()), nonce, arbiters, min, order)
    {
      if held {
        return Blocked;
      }
      if nonce !in txs || nonce !in nonces.rs {
        return Rejected;
      }
      assert Stored(nonces.owner, nonce, nonces.rs[nonce], nonces.model[nonce]);
      var responders := nonces.rs[nonce].Keys;
      o := TooFew;
      if |responders| >= min {
        var request := MakeRequest(nonce, arbiters, min, order);
        var hash := TxHash(request.tx);
        if hash in txs {
          return Rejected;
        }
        txs := txs[hash := request.tx];
        ss := ss[hash := map[cfg.me := request.e * cfg.secret(cfg.me)]];
        o := Asked(request);
      }
      unsigned := GiveCredit(unsigned, arbiters, responders, cfg.me);
    }

    /** Choose the signers, rebuild the transaction with their positions in its
        payload, and compute the challenge for its hash. */
    method MakeRequest(nonce: Digest, arbiters: seq<Key>, min: nat, order: seq<Key>) returns (r: Request)
      requires Valid() && nonce in txs && nonce in nonces.model
      requires Distinct(order) && Elements(order) == nonces.model[nonce].Keys
      ensures r == BuildRequest(cfg, Abs(), nonce, arbiters, min, order)
    {
      assert Stored(nonces.owner, nonce, nonces.rs[nonce], nonces.model[nonce]);
      var chosen := Choose(order, min);
      var pks, indexes := PickSigners(arbiters, chosen);
      PickKeysSound(arbiters, chosen);
      assert chosen <= Elements(order);
      var tx := Tx(txs[nonce].base, indexes);
      var e := ComputeChallenge(cfg.g, nonces.rs[nonce], nonces.model[nonce], pks, TxHash(tx));
      r := Request(nonce, tx, pks, e);
    }

    /** `visited` are the signers whose nonce the aggregation used up: all of them
        when every share has its nonce. */
    method ReceiveS(a: AnswerS, signatureOk: bool) returns (o: Outcome, ghost visited: set<Key>)
      requires Valid()
      modifies this, nonces, nonces.owner.Keys
      ensures Valid()
      ensures (Abs(), o) == SchnorrProtocol.ReceiveS(cfg, old(Abs()), a, signatureOk, visited)
      ensures Fires(old(Abs()), a, signatureOk) ==>
                Visited(NonceEntries(old(Abs()), a.nonce), old(Abs()).ss[TxHash(a.tx)][a.key := a.s], visited)
    {
      visited := {};
      if !signatureOk {
        return Rejected, visited;
      }
      if held {
        return Blocked, visited;
      }
      var hash := TxHash(a.tx);
      if hash !in txs || TxHash(txs[hash]) !in ss || hash !in ss {
        return Rejected, visited;
      }
      var txn := txs[hash];
      if a.key in ss[TxHash(txn)] {
        return AlreadyRecorded, visited;
      }
      if a.key !in unsigned || unsigned[a.key] < 1 {
        held := true;
        return Rejected, visited;
      }
      o, visited := TakeShare(a);
    }

    method TakeShare(a: AnswerS) returns (o: Outcome, ghost visited: set<Key>)
      requires Valid() && TxHash(a.tx) in txs && TxHash(a.tx) in ss && Count(unsigned, a.key) >= 1
      modifies this, nonces, nonces.owner.Keys
      ensures Valid()
      ensures (Abs(), o) == SchnorrProtocol.TakeShare(cfg, old(Abs()), a, visited)
      ensures |old(ss)[TxHash(a.tx)][a.key := a.s]| == |a.pks| ==>
                Visited(NonceEntries(old(Abs()), a.nonce), old(ss)[TxHash(a.tx)][a.key := a.s], visited)
    {
      var hash := TxHash(a.tx);
      visited := {};
      unsigned := unsigned[a.key := unsigned[a.key] - 1];
      ss := ss[hash := ss[hash][a.key := a.s]];
      if |ss[hash]| == |a.pks| {
        o, visited := Finish(a.nonce, txs[hash], ss[hash]);
      } else {
        o := Recorded;
      }
    }

    method Finish(nonce: Digest, txn: Tx, shares: map<Key, int>) returns (o: Outcome, ghost visited: set<Key>)
      requires Valid()
      modifies nonces, nonces.owner.Keys
      ensures Valid()
      ensures (Abs(), o) == Aggregate(cfg, old(Abs()), nonce, txn, shares, visited)
      ensures Visited(NonceEntries(old(Abs()), nonce), shares, visited)
    {
      if nonce !in nonces.rs {
        o := WithoutNonces(txn, shares);
        visited := {};
        return;
      }
      var r, p := nonces.SumPoints(cfg.g, nonce, shares);
      var complete, s;
      complete, s, visited := nonces.SumShares(cfg.g, r, nonce, shares);
      o := if complete then Submitted(Submission(TxHash(txn), r, Residue(s, cfg.g.n), p)) else Rejected;
    }

    /** No nonces to walk: the sums are empty, and only an empty list of shares would be
        complete. */
    method WithoutNonces(txn: Tx, shares: map<Key, int>) returns (o: Outcome)
      requires cfg.g.n > 1
      ensures forall st: State, nonce, visited | nonce !in st.rs ::
                (st, o) == Aggregate(cfg, st, nonce, txn, shares, visited)
    {
      assert shares.Keys * {} == {};
      assert NoncePoints(map[], {}) == map[] && PublicKeys(map[], {}) == map[];
      assert Terms(cfg.g, 0, map[], map[]) == map[];
      o := if shares == map[] then Submitted(Submission(TxHash(txn), 0, 0, 0)) else Rejected;
    }

    method Reset()
      requires Valid()
      modifies this, nonces
      ensures Valid() && Abs() == SchnorrProtocol.Reset(old(Abs()))
    {
      txs, ss := map[], map[];
      nonces.Clear();
    }
  }

  /** The share that was just recorded is the last one expected. */
  ghost predicate Fires(st: State, a: AnswerS, signatureOk: bool) {
    var hash := TxHash(a.tx);
    && signatureOk && !st.held && hash in st.txs && hash in st.ss && TxHash(st.txs[hash]) in st.ss
    && a.key !in st.ss[TxHash(st.txs[hash])] && Count(st.unsigned, a.key) >= 1
    && |st.ss[hash][a.key := a.s]| == |a.pks|
  }
}
