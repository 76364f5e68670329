/** How many of n arbiters must sign (getTransactionAgreementArbitratorsCount), in
    the three height ranges of the configuration, and what such quorums share. */
module Quorum {
  datatype Heights = Heights(claim: nat, crossChain: nat)  // CRClaimDPOSNodeStartHeight, DPOSNodeCrossChainHeight

  function Required(n: nat, height: nat, hs: Heights): nat {
    if height <= hs.claim then n * 2 / 3 + 1
    else if height < hs.crossChain then n * 2 / 3
    else n * 2 / 3 + 1
  }

  predicate MiddleEra(height: nat, hs: Heights) {
    hs.claim < height < hs.crossChain
  }

  /** Outside the middle range exactly as many arbiters may be silent as a
      Byzantine agreement among n tolerates, the largest f with 3f < n. */
  lemma RequiredIsAllButAThird(n: nat, height: nat, hs: Heights)
    requires n >= 1 && !MiddleEra(height, hs)
    ensures Required(n, height, hs) == n - (n - 1) / 3
    ensures 3 * (n - Required(n, height, hs)) < n <= 3 * (n - Required(n, height, hs) + 1)
  {
  }

  /** In the middle range the number is the largest that is no more than two thirds. */
  lemma RequiredIsTwoThirds(n: nat, height: nat, hs: Heights)
    requires MiddleEra(height, hs)
    ensures 3 * Required(n, height, hs) <= 2 * n < 3 * (Required(n, height, hs) + 1)
  {
  }

  /** Two sets inside a set of n have at least their excess in common. */
  lemma Overlap<T>(a: set<T>, b: set<T>, all: set<T>)
    requires a <= all && b <= all
    ensures |a * b| >= |a| + |b| - |all|
  {
    assert |a + b| == |a| + |b| - |a * b|;
    assert all == (a + b) + (all - (a + b));
    assert |all| == |a + b| + |all - (a + b)|;
  }

  /** Any two quorums of the same arbiters share more than a third of them, in the
      middle range only somewhat less than a third. */
  lemma QuorumsShare<T>(a: set<T>, b: set<T>, all: set<T>, height: nat, hs: Heights)
    requires a <= all && b <= all
    requires |a| >= Required(|all|, height, hs) && |b| >= Required(|all|, height, hs)
    ensures !MiddleEra(height, hs) ==> 3 * |a * b| > |all|
    ensures MiddleEra(height, hs) ==> 3 * |a * b| >= |all| - 4
  {
    Overlap(a, b, all);
  }

  ghost predicate AllMeet<T(!new)>(all: set<T>, q: nat) {
    forall a, b | a <= all && b <= all && |a| >= q && |b| >= q :: a * b != {}
  }

  /** In the middle range two quorums can miss each other, but only for very small
      arbiter lists; outside of it they never do, but for no arbiters at all. */
  lemma QuorumsMeetIff<T(!new)>(all: set<T>, height: nat, hs: Heights)
    ensures MiddleEra(height, hs) ==> (AllMeet(all, Required(|all|, height, hs)) <==> |all| !in {0, 1, 2, 4})
    ensures !MiddleEra(height, hs) ==> AllMeet(all, Required(|all|, height, hs))
  {
    var q := Required(|all|, height, hs);
    if MiddleEra(height, hs) && |all| in {0, 1, 2, 4} {
      RequiredIsTwoThirds(|all|, height, hs);
      var a := Part(all, |all| / 2);
      var b := all - a;
      assert |b| == |all| - |a|;
      if |all| == 1 {
        var none: set<T> := {};
        assert none <= all && |none| == 0 && none * none == {};
      }
      assert a * b == {};
    } else {
      forall a, b | a <= all && b <= all && |a| >= q && |b| >= q ensures a * b != {} {
        Overlap(a, b, all);
      }
    }
  }

  lemma {:induction false} Part<T>(all: set<T>, k: nat) returns (part: set<T>)
    requires k <= |all|
    ensures part <= all && |part| == k
  {
    if k == 0 {
      return {};
    }
    var x :| x in all;
    part := Part(all - {x}, k - 1);
    part := part + {x};
  }

  // ---- counting signatures by length ------------------------------------------------

  const SIGNATURE_SCRIPT_LENGTH := 65

  /** The count MergeSignToTransaction reports for k scripts of 65 bytes: it divides
      their length by 64. */
  function ReportedCount(k: nat): nat {
    k * SIGNATURE_SCRIPT_LENGTH / (SIGNATURE_SCRIPT_LENGTH - 1)
  }

  /** The number of signatures at which a proposal is submitted when `needed` are
      required: at least one feedback must have come. */
  function SubmittedAt(needed: int): nat {
    if needed - needed / 65 < 2 then 2 else needed - needed / 65
  }

  /** One signature in 64 is counted twice, so that the quorum is reached early as
      soon as more than 64 signatures are required, and only then. */
  lemma CountsOneTooMany(k: nat, needed: int)
    ensures ReportedCount(k) == k + k / 64
    ensures k >= 2 ==> (ReportedCount(k) >= needed <==> k >= SubmittedAt(needed))
    ensures SubmittedAt(needed) == needed <==> 2 <= needed <= 64
  {
  }

  /** The rule 2n/3+1 asks for at most 64 signatures exactly up to 95 arbiters. */
  lemma CountIsExactUpTo95(n: nat)
    ensures SubmittedAt(n * 2 / 3 + 1) == n * 2 / 3 + 1 <==> 2 <= n <= 95
  {
    CountsOneTooMany(0, n * 2 / 3 + 1);
  }
}
