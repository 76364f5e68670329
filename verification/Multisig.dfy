/** The multi-signature path of a proposal, handler by handler, as functions on the
    value of the proposer's maps. The class in MultisigServer runs the handlers on
    transactions in the heap and is proved to compute these functions. */
module Multisig {
  import opened Lists
  import opened Quorum

  type Key = string

  /** What a signature can be over: a transaction without its programs
      (SerializeUnsigned) or with them (Serialize). A body is identified with its
      hash. */
  datatype Message = Unsigned(body: nat) | Full(body: nat, code: seq<Key>, parameter: seq<Sig>)

  /** A signature script: its signer and message can be read off. */
  datatype Sig = Sig(signer: Key, msg: Message)

  predicate Verify(key: Key, msg: Message, sig: Sig) {
    sig == Sig(key, msg)
  }

  /** A transaction in the proposer's pending map: the keys of its redeem script and
      the signatures merged so far. */
  datatype Pending = Pending(code: seq<Key>, parameter: seq<Sig>)

  datatype State = State(
    contents: map<nat, Pending>,     // unsolvedContents
    signers: map<nat, set<Key>>)     // unsolvedContentsSignature

  const INITIAL := State(map[], map[])

  /** The arbiter list of the moment, and the signatures it requires. */
  datatype Env = Env(me: Key, arbiters: seq<Key>, needed: int)

  /** A feedback: the sender's key and the key its program hash belongs to, the
      transaction body, and the signature scripts (the proposer's and its own). */
  datatype Feedback = Feedback(pk: Key, target: Key, body: nat, scripts: seq<Sig>)

  datatype Outcome = Rejected | Ignored | Merged | Proposed | Submitted(parameter: seq<Sig>)

  // ---- generateDistributedProposal ---------------------------------------------------

  predicate Listed(arbiters: seq<Key>, k: Key) {
    k != "" && k in arbiters
  }

  /** How many keys the redeem script of an arbiter list has. */
  function NonBlank(arbiters: seq<Key>): nat {
    if arbiters == [] then 0
    else NonBlank(arbiters[..|arbiters| - 1]) + if arbiters[|arbiters| - 1] == "" then 0 else 1
  }

  /** An arbiter can sign a proposal if it finds itself in the redeem script, which
      gives back its keys if there are at least two (RedeemScript.OnlyListedArbitersSign). */
  predicate CanSign(env: Env) {
    NonBlank(env.arbiters) >= 2 && Listed(env.arbiters, env.me)
  }

  /** The transaction is signed and its parameter set before the check that it is
      not in process: `same` tells whether the transaction handed in is the very
      object that is already pending. */
  function Propose(env: Env, st: State, body: nat, code: seq<Key>, same: bool): (State, Outcome) {
    var own := Sig(env.me, Unsigned(body));
    if !CanSign(env) then (st, Rejected)
    else if body in st.contents then
      (if same then st.(contents := st.contents[body := st.contents[body].(parameter := [own])]) else st, Rejected)
    else
      (State(st.contents[body := Pending(code, [own])], st.signers[body := {env.me}]), Proposed)
  }

  /** A proposal is opened, with the proposer's signature alone, if and only if it is not
      pending, the proposer is listed, and two positions of the list are not blank. */
  lemma ProposalOpensIff(env: Env, st: State, body: nat, code: seq<Key>, same: bool)
    ensures var (st', o) := Propose(env, st, body, code, same);
            && (o.Proposed? <==>
                  && body !in st.contents && env.me != "" && env.me in env.arbiters
                  && exists i, j :: 0 <= i < j < |env.arbiters| && env.arbiters[i] != "" && env.arbiters[j] != "")
            && (o.Proposed? ==>
                  && st'.contents == st.contents[body := Pending(code, [Sig(env.me, Unsigned(body))])]
                  && st'.signers == st.signers[body := {env.me}])
  {
    TwoNonBlank(env.arbiters);
  }

  lemma {:induction false} TwoNonBlank(arbiters: seq<Key>)
    ensures NonBlank(arbiters) >= 1 <==> exists i :: 0 <= i < |arbiters| && arbiters[i] != ""
    ensures NonBlank(arbiters) >= 2 <==> exists i, j :: 0 <= i < j < |arbiters| && arbiters[i] != "" && arbiters[j] != ""
  {
    if arbiters != [] {
      var n := |arbiters| - 1;
      var init := arbiters[..n];
      TwoNonBlank(init);
      assert forall i | 0 <= i < n :: init[i] == arbiters[i];
      if i :| 0 <= i < n && init[i] != "" {
        assert arbiters[i] != "";
      }
      if i, j :| 0 <= i < j < n && init[i] != "" && init[j] != "" {
        assert arbiters[i] != "" && arbiters[j] != "";
      }
      if i, j :| 0 <= i < j < |arbiters| && arbiters[i] != "" && arbiters[j] != "" {
        assert init[i] != "";
        assert j < n ==> init[j] != "";
      }
    }
  }

  // ---- receiveWithdrawProposalFeedback -----------------------------------------------

  /** The re-check before a signature is merged: does a merged one verify under the
      signer's key, over the transaction with its programs? */
  predicate SeenBefore(body: nat, p: Pending, signer: Key) {
    exists s :: s in p.parameter && Verify(signer, Full(body, p.code, p.parameter), s)
  }

  function Receive(env: Env, st: State, f: Feedback): (State, Outcome) {
    if !Listed(env.arbiters, f.target) then (st, Rejected)
    else if |f.scripts| != 2 then (st, Ignored)
    else if !Verify(f.pk, Unsigned(f.body), f.scripts[1]) then (st, Rejected)
    else if f.body !in st.contents then (st, Rejected)
    else if f.body in st.signers && f.target in st.signers[f.body] then (st, Ignored)
    else Merge(env, st, f)
  }

  function Merge(env: Env, st: State, f: Feedback): (State, Outcome)
    requires f.body in st.contents && |f.scripts| == 2
  {
    var p := st.contents[f.body];
    if f.target !in p.code || SeenBefore(f.body, p, f.target) then (st, Rejected)
    else
      var p' := p.(parameter := p.parameter + [f.scripts[1]]);
      if ReportedCount(|p'.parameter|) >= env.needed then
        (State(st.contents - {f.body}, st.signers - {f.body}), Submitted(p'.parameter))
      else
        (State(st.contents[f.body := p'], st.signers[f.body := SignersOf(st, f.body) + {f.target}]), Merged)
  }

  function SignersOf(st: State, body: nat): set<Key> {
    if body in st.signers then st.signers[body] else {}
  }

  /** Who made the signatures. */
  function Makers(parameter: seq<Sig>): (ks: seq<Key>)
    ensures |ks| == |parameter|
  {
    seq(|parameter|, i requires 0 <= i < |parameter| => parameter[i].signer)
  }

  /** Signatures are made over the unsigned form, so the re-check never finds one:
      only the recorded signer set keeps a second signature out. */
  lemma RecheckIsInert(body: nat, p: Pending, signer: Key)
    requires forall s | s in p.parameter :: s.msg.Unsigned?
    ensures !SeenBefore(body, p, signer)
  {
  }
}
