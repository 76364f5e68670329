/** The algebra behind the two-phase Schnorr withdrawal: one nonce and one share
    per signer, added up by the proposer.

    A point of the curve is represented by its discrete logarithm, a residue
    modulo the group order, so adding points is adding residues. What the code
    asks of a point besides that is its x-coordinate and whether its y-coordinate
    is a quadratic residue of the field (Jacobi symbol 1); both are parameters. */
module SchnorrMath {
  import opened Arithmetic
  import opened Sums

  type Key = string

  /** The withdraw transaction of a proposal: its content apart from the signer
      list, which the proposer fills in when it has chosen the signers. */
  datatype Tx = Tx(base: nat, signers: seq<nat>)

  /** Hashing is injective: a digest shows what was hashed. */
  datatype Digest = TxHash(tx: Tx) | NonceHash(nonce: Digest)

  datatype Group = Group(
    n: int,                          // order of the group
    X: int -> int,                   // x-coordinate of a point
    Qr: int -> bool,                 // Jacobi(y, P) == 1
    H: (int, int, Digest) -> int)    // getE: hash of R.x, P and the message, reduced modulo n
  {
    /** Q and -Q share their x-coordinate and no other point does; exactly one of
        them has a y-coordinate that is a quadratic residue (the field prime is 3
        modulo 4), unless Q is the identity, which the code stores as (0, 0). */
    ghost predicate Valid() {
      && n > 1
      && !Qr(0)
      && (forall q | 0 < q < n :: Qr(q) <==> !Qr(n - q))
      && (forall q, r | 0 < q < n && 0 < r < n :: X(q) == X(r) <==> (q == r || q == n - r))
    }

    /** Verification in the Jacobi-symbol draft: R' = s*G - e*P must be a proper
        point with the announced x-coordinate and a quadratic-residue y. */
    ghost predicate Verifies(rx: int, s: int, p: int, m: Digest)
      requires n > 1
    {
      var r' := Residue(s - ChallengeTimesKey(rx, p, m), n);
      0 <= s < n && r' != 0 && Qr(r') && X(r') == rx
    }

    /** e*P for the challenge e that belongs to rx, P and the message. */
    ghost function ChallengeTimesKey(rx: int, p: int, m: Digest): int {
      H(rx, p, m) * p
    }
  }

  /** The assumptions on a group can be met. */
  lemma GroupsExist() returns (g: Group)
    ensures g.Valid()
  {
    g := Group(3, q => 0, q => q == 1, (rx, p, m) => 0);
  }

  // ---- residues --------------------------------------------------------------

  function Residue(a: int, n: int): (r: int)
    requires n > 0
    ensures 0 <= r < n
  {
    a % n
  }

  ghost predicate DiffersBy(a: int, b: int, n: int, q: int) {
    a == b + q * n
  }

  ghost predicate Cong(a: int, b: int, n: int) {
    exists q :: DiffersBy(a, b, n, q)
  }

  lemma CongFromMultiple(a: int, b: int, q: int, n: int)
    requires a == b + q * n
    ensures Cong(a, b, n)
  {
    assert DiffersBy(a, b, n, q);
  }

  lemma CongRefl(a: int, n: int)
    ensures Cong(a, a, n)
  {
    assert DiffersBy(a, a, n, 0);
  }

  /** Congruence is kept by sums and differences, and is symmetric. */
  lemma CongAdd(a: int, b: int, c: int, d: int, n: int)
    requires Cong(a, b, n) && Cong(c, d, n)
    ensures Cong(a + c, b + d, n) && Cong(a - c, b - d, n) && Cong(b, a, n)
  {
    var q :| DiffersBy(a, b, n, q);
    var r :| DiffersBy(c, d, n, r);
    assert DiffersBy(a + c, b + d, n, q + r) by {
      assert (q + r) * n == q * n + r * n;
    }
    assert DiffersBy(a - c, b - d, n, q - r) by {
      assert (q - r) * n == q * n - r * n;
    }
    assert DiffersBy(b, a, n, -q);
  }

  lemma CongTrans(a: int, b: int, c: int, n: int)
    requires Cong(a, b, n) && Cong(b, c, n)
    ensures Cong(a, c, n)
  {
    CongAdd(a, b, b, c, n);
    CongRefl(b, n);
    CongAdd(a + b, b + c, b, b, n);
  }

  lemma CongMul(x: int, a: int, b: int, n: int)
    requires Cong(a, b, n)
    ensures Cong(x * a, x * b, n)
  {
    var q :| DiffersBy(a, b, n, q);
    assert x * a == x * (b + q * n) == x * b + (x * q) * n;
    assert DiffersBy(x * a, x * b, n, x * q);
  }

  lemma CongResidue(a: int, n: int)
    requires n > 0
    ensures Cong(Residue(a, n), a, n)
  {
    assert a == (a / n) * n + a % n;
    assert DiffersBy(Residue(a, n), a, n, -(a / n));
  }

  /** Congruent residues are equal. */
  lemma CongUnique(a: int, b: int, n: int)
    requires n > 0 && 0 <= a < n && 0 <= b < n && Cong(a, b, n)
    ensures a == b
  {
    var q :| DiffersBy(a, b, n, q);
    MultipleBounds(q, n);
  }

  lemma ResidueOfResidue(a: int, n: int)
    requires 0 <= a < n
    ensures Residue(a, n) == a
  {
  }

  /** Adding up residue by residue ends where adding up first would. */
  lemma ResidueAdd(a: int, b: int, n: int)
    requires n > 0
    ensures Residue(Residue(a, n) + b, n) == Residue(a + b, n)
  {
    CongResidue(a, n);
    CongRefl(b, n);
    CongAdd(Residue(a, n), a, b, b, n);
    CongSameResidue(Residue(a, n) + b, a + b, n);
  }

  lemma CongSameResidue(a: int, b: int, n: int)
    requires n > 0 && Cong(a, b, n)
    ensures Residue(a, n) == Residue(b, n)
  {
    CongResidue(a, n);
    CongResidue(b, n);
    CongTrans(Residue(a, n), a, b, n);
    CongRefl(0, n);
    CongAdd(Residue(b, n), b, 0, 0, n);
    CongTrans(Residue(a, n), b, Residue(b, n), n);
    CongUnique(Residue(a, n), Residue(b, n), n);
  }

  lemma CongShift(a: int, b: int, n: int)
    ensures Cong(a, b, n) <==> Cong(a - b, 0, n)
  {
    CongRefl(b, n);
    if Cong(a, b, n) {
      CongAdd(a, b, b, b, n);
    }
    if Cong(a - b, 0, n) {
      CongAdd(a - b, 0, b, b, n);
    }
  }

  lemma {:induction false} MapSumCong<K>(a: map<K, int>, b: map<K, int>, n: int)
    requires a.Keys == b.Keys
    requires forall k | k in a :: Cong(a[k], b[k], n)
    ensures Cong(MapSum(a), MapSum(b), n)
    decreases |a|
  {
    if a == map[] {
      assert b == map[];
      CongRefl(0, n);
    } else {
      var k :| k in a;
      MapSumRemove(a, k);
      MapSumRemove(b, k);
      MapSumCong(a - {k}, b - {k}, n);
      CongAdd(a[k], b[k], MapSum(a - {k}), MapSum(b - {k}), n);
    }
  }

  // ---- aggregation ---------------------------------------------------------

  /** What the proposer holds for one signer (struct KRP): the nonce, the nonce
      point and the public key, the points as residues. */
  datatype Krp = Krp(k0: int, r: int, p: int)

  ghost function Nonces(rs: map<Key, Krp>, keys: set<Key>): map<Key, int>
    requires keys <= rs.Keys
  {
    map k | k in keys :: rs[k].k0
  }

  ghost function NoncePoints(rs: map<Key, Krp>, keys: set<Key>): map<Key, int>
    requires keys <= rs.Keys
  {
    map k | k in keys :: rs[k].r
  }

  ghost function PublicKeys(rs: map<Key, Krp>, keys: set<Key>): map<Key, int>
    requires keys <= rs.Keys
  {
    map k | k in keys :: rs[k].p
  }

  /** Sum of the nonce points, and of the public keys, of a set of signers. */
  ghost function RSum(g: Group, rs: map<Key, Krp>, keys: set<Key>): int
    requires g.n > 1 && keys <= rs.Keys
  {
    Residue(MapSum(NoncePoints(rs, keys)), g.n)
  }

  ghost function PSum(g: Group, rs: map<Key, Krp>, keys: set<Key>): int
    requires g.n > 1 && keys <= rs.Keys
  {
    Residue(MapSum(PublicKeys(rs, keys)), g.n)
  }

  /** The nonce as GetK leaves it: negated when the summed nonce point has the
      wrong y. */
  function SignedNonce(g: Group, rsum: int, k0: int): int {
    if g.Qr(rsum) then k0 else g.n - k0
  }

  /** The terms the aggregation loop adds up. */
  ghost function Terms(g: Group, rsum: int, rs: map<Key, Krp>, ss: map<Key, int>): map<Key, int>
    requires ss.Keys <= rs.Keys
  {
    map k | k in ss :: SignedNonce(g, rsum, rs[k].k0) + ss[k]
  }

  /** The summed nonce with the sign GetK gives each of its parts. */
  ghost function SignedSum(g: Group, rsum: int, sum: int): int {
    if g.Qr(rsum) then sum else -sum
  }

  lemma TermsSum(g: Group, rsum: int, rs: map<Key, Krp>, ss: map<Key, int>)
    requires g.n > 1 && ss.Keys <= rs.Keys
    ensures Cong(MapSum(Terms(g, rsum, rs, ss)), SignedSum(g, rsum, MapSum(Nonces(rs, ss.Keys))) + MapSum(ss), g.n)
  {
    if g.Qr(rsum) {
      PlainTermsSum(Nonces(rs, ss.Keys), ss, Terms(g, rsum, rs, ss), g.n);
    } else {
      NegatedTermsSum(Nonces(rs, ss.Keys), ss, Terms(g, rsum, rs, ss), g.n);
    }
  }

  lemma PlainTermsSum(ks: map<Key, int>, ss: map<Key, int>, ts: map<Key, int>, n: int)
    requires ks.Keys == ss.Keys == ts.Keys
    requires forall k | k in ts :: ts[k] == ks[k] + ss[k]
    ensures Cong(MapSum(ts), MapSum(ks) + MapSum(ss), n)
  {
    MapSumPlus(ks, ss, ts);
    CongRefl(MapSum(ts), n);
  }

  lemma {:induction false} NegatedTermsSum(ks: map<Key, int>, ss: map<Key, int>, ts: map<Key, int>, n: int)
    requires ks.Keys == ss.Keys == ts.Keys
    requires forall k | k in ts :: ts[k] == n - ks[k] + ss[k]
    ensures Cong(MapSum(ts), -MapSum(ks) + MapSum(ss), n)
    decreases |ts|
  {
    if ts == map[] {
      assert ks == map[] && ss == map[];
      CongRefl(0, n);
    } else {
      var k :| k in ts;
      NegatedTermsSum(ks - {k}, ss - {k}, ts - {k}, n);
      var tsum := SumWithout(ts, k);
      var ksum := SumWithout(ks, k);
      var ssum := SumWithout(ss, k);
      AddNegatedTerm(ks[k], ss[k], ksum, ssum, tsum, MapSum(ts), -MapSum(ks) + MapSum(ss), n);
    }
  }

  lemma SumWithout(m: map<Key, int>, k: Key) returns (rest: int)
    requires k in m
    ensures rest == MapSum(m - {k}) && MapSum(m) == m[k] + rest
  {
    MapSumRemove(m, k);
    rest := MapSum(m - {k});
  }

  lemma AddNegatedTerm(k: int, s: int, ksum: int, ssum: int, tsum: int, total: int, target: int, n: int)
    requires Cong(tsum, -ksum + ssum, n)
    requires total == (n - k + s) + tsum && target == -(k + ksum) + (s + ssum)
    ensures Cong(total, target, n)
  {
    CongFromMultiple(n - k + s, -k + s, 1, n);
    CongAdd(n - k + s, -k + s, tsum, -ksum + ssum, n);
    assert target == (-k + s) + (-ksum + ssum);
  }

  /** A response that is the signed nonce plus the shares gives back the signed
      nonce point, shifted by whatever the shares are off. */
  lemma CheckedPoint(total: int, signedK: int, signedR: int, shares: int, ep: int, n: int)
    requires n > 0
    requires Cong(signedK, signedR, n) && Cong(total, signedK + shares, n)
    ensures Cong(Residue(Residue(total, n) - ep, n), signedR + (shares - ep), n)
  {
    CongResidue(total, n);
    CongTrans(Residue(total, n), total, signedK + shares, n);
    CongRefl(ep, n);
    CongAdd(Residue(total, n), signedK + shares, ep, ep, n);
    CongRefl(shares - ep, n);
    CongAdd(signedK, signedR, shares - ep, shares - ep, n);
    CongTrans(Residue(total, n) - ep, signedK + (shares - ep), signedR + (shares - ep), n);
    CongResidue(Residue(total, n) - ep, n);
    CongTrans(Residue(Residue(total, n) - ep, n), Residue(total, n) - ep, signedR + (shares - ep), n);
  }

  /** Of the two points with the x-coordinate of rsum, the loop ends on the one
      that verification wants, and being off by anything shows. */
  lemma CheckDecides(g: Group, rsum: int, r': int, delta: int)
    requires g.Valid() && 0 < rsum < g.n && 0 <= r' < g.n
    requires Cong(r', SignedSum(g, rsum, rsum) + delta, g.n)
    ensures r' != 0 && g.Qr(r') && g.X(r') == g.X(rsum) <==> Cong(delta, 0, g.n)
  {
    var n := g.n;
    var signed := SignedSum(g, rsum, rsum);
    var q := if g.Qr(rsum) then rsum else n - rsum;
    CongFromMultiple(signed, q, if g.Qr(rsum) then 0 else -1, n);
    CongRefl(delta, n);
    CongAdd(signed, q, delta, delta, n);
    CongTrans(r', signed + delta, q + delta, n);
    CongRefl(q, n);
    if Cong(delta, 0, n) {
      CongAdd(q, q, delta, 0, n);
      CongTrans(r', q + delta, q, n);
      CongUnique(r', q, n);
    }
    if r' == q {
      CongAdd(r', q + delta, q, q, n);
      assert r' - q == 0 && q + delta - q == delta;
      CongAdd(0, delta, 0, delta, n);
    }
  }

  /** The summed nonce point belongs to the summed nonce. */
  lemma SummedNonce(g: Group, rs: map<Key, Krp>, keys: set<Key>)
    requires g.n > 1 && keys <= rs.Keys
    requires forall k | k in keys :: Cong(rs[k].r, rs[k].k0, g.n)
    ensures Cong(MapSum(Nonces(rs, keys)), RSum(g, rs, keys), g.n)
    ensures Cong(-MapSum(Nonces(rs, keys)), -RSum(g, rs, keys), g.n)
  {
    var n, rpoints, ksum, rsum := g.n, MapSum(NoncePoints(rs, keys)), MapSum(Nonces(rs, keys)), RSum(g, rs, keys);
    MapSumCong(NoncePoints(rs, keys), Nonces(rs, keys), n);
    CongResidue(rpoints, n);
    CongTrans(rsum, rpoints, ksum, n);
    CongRefl(0, n);
    CongAdd(rsum, ksum, 0, 0, n);
    CongAdd(0, 0, ksum, rsum, n);
  }

  lemma PointFromAggregate(g: Group, rs: map<Key, Krp>, ss: map<Key, int>, ep: int)
    requires g.n > 1 && ss.Keys <= rs.Keys
    requires forall k | k in ss :: Cong(rs[k].r, rs[k].k0, g.n)
    ensures var rsum := RSum(g, rs, ss.Keys);
            Cong(Residue(Residue(MapSum(Terms(g, rsum, rs, ss)), g.n) - ep, g.n),
                 SignedSum(g, rsum, rsum) + (MapSum(ss) - ep), g.n)
  {
    var rsum, ksum := RSum(g, rs, ss.Keys), MapSum(Nonces(rs, ss.Keys));
    SummedNonce(g, rs, ss.Keys);
    TermsSum(g, rsum, rs, ss);
    CheckedPoint(MapSum(Terms(g, rsum, rs, ss)), SignedSum(g, rsum, ksum), SignedSum(g, rsum, rsum), MapSum(ss), ep, g.n);
  }

  /** Main theorem of the aggregation. When every recorded nonce point belongs to
      the recorded nonce and the points do not cancel out, the aggregated pair
      (x of the summed nonce point, sum of the loop's terms) verifies under the
      summed public key exactly when the shares add up to e times that key: no
      wrong sum of shares is hidden by the sign adjustment. When they do cancel
      out, correct shares give a signature that does not verify. */
  lemma AggregateVerifiesIff(g: Group, rs: map<Key, Krp>, ss: map<Key, int>, m: Digest)
    requires g.Valid() && ss.Keys <= rs.Keys
    requires forall k | k in ss :: Cong(rs[k].r, rs[k].k0, g.n)
    ensures var rsum, psum := RSum(g, rs, ss.Keys), PSum(g, rs, ss.Keys);
            var verifies := g.Verifies(g.X(rsum), Residue(MapSum(Terms(g, rsum, rs, ss)), g.n), psum, m);
            var sharesAddUp := Cong(MapSum(ss), g.ChallengeTimesKey(g.X(rsum), psum, m), g.n);
            if rsum != 0 then verifies <==> sharesAddUp else sharesAddUp ==> !verifies
  {
    var rsum, psum := RSum(g, rs, ss.Keys), PSum(g, rs, ss.Keys);
    PointFromAggregate(g, rs, ss, g.ChallengeTimesKey(g.X(rsum), psum, m));
    ResponseVerifiesIff(g, rsum, Residue(MapSum(Terms(g, rsum, rs, ss)), g.n), MapSum(ss), psum, m);
  }

  /** The same for a response s whose checked point is known. */
  lemma ResponseVerifiesIff(g: Group, rsum: int, s: int, shares: int, p: int, m: Digest)
    requires g.Valid() && 0 <= rsum < g.n && 0 <= s < g.n
    requires var ep := g.ChallengeTimesKey(g.X(rsum), p, m);
             Cong(Residue(s - ep, g.n), SignedSum(g, rsum, rsum) + (shares - ep), g.n)
    ensures var sharesAddUp := Cong(shares, g.ChallengeTimesKey(g.X(rsum), p, m), g.n);
            if rsum != 0 then g.Verifies(g.X(rsum), s, p, m) <==> sharesAddUp
            else sharesAddUp ==> !g.Verifies(g.X(rsum), s, p, m)
  {
    var ep := g.ChallengeTimesKey(g.X(rsum), p, m);
    var r' := Residue(s - ep, g.n);
    CongShift(shares, ep, g.n);
    if rsum != 0 {
      CheckDecides(g, rsum, r', shares - ep);
    } else if Cong(shares, ep, g.n) {
      CancelledPoint(r', SignedSum(g, rsum, rsum), shares - ep, g.n);
    }
  }

  lemma CancelledPoint(r': int, zero: int, delta: int, n: int)
    requires n > 0 && zero == 0 && 0 <= r' < n
    requires Cong(r', zero + delta, n) && Cong(delta, 0, n)
    ensures r' == 0
  {
    CongTrans(r', delta, 0, n);
    CongUnique(r', 0, n);
  }
}
