/** The multi-signature handlers as the code runs them: on transactions in the heap,
    whose parameter is rewritten in place, and on the maps held in fields. */
module MultisigServer {
  import opened Lists
  import opened Quorum
  import opened Multisig

  class Transaction {
    const body: nat
    const code: seq<Key>
    var parameter: seq<Sig>

    constructor (b: nat, c: seq<Key>)
      ensures body == b && code == c && parameter == []
    {
      body, code, parameter := b, c, [];
    }
  }

  /** The first position of a key in a redeem script, or -1. */
  method SignerIndex(code: seq<Key>, k: Key) returns (index: int)
    ensures index == -1 <==> k !in code
    ensures index != -1 ==> 0 <= index < |code| && code[index] == k && k !in code[..index]
  {
    for i := 0 to |code|
      invariant k !in code[..i]
    {
      if code[i] == k {
        return i;
      }
    }
    assert code[..|code|] == code;
    return -1;
  }

  /** MergeSignToTransaction: walk the merged scripts, then append. */
  method MergeSignToTransaction(newSign: Sig, index: nat, txn: Transaction) returns (ok: bool, count: int)
    requires index < |txn.code|
    modifies txn
    ensures ok <==> !SeenBefore(txn.body, Pending(txn.code, old(txn.parameter)), txn.code[index])
    ensures txn.parameter == if ok then old(txn.parameter) + [newSign] else old(txn.parameter)
    ensures ok ==> count == ReportedCount(|txn.parameter|)
  {
    var whole := Full(txn.body, txn.code, txn.parameter);
    for i := 0 to |txn.parameter|
      invariant forall j | 0 <= j < i :: !Verify(txn.code[index], whole, txn.parameter[j])
    {
      if Verify(txn.code[index], whole, txn.parameter[i]) {
        return false, 0;
      }
    }
    txn.parameter := txn.parameter + [newSign];
    return true, |txn.parameter| * SIGNATURE_SCRIPT_LENGTH / (SIGNATURE_SCRIPT_LENGTH - 1);
  }

  /** CreateRedeemScript: the keys that go into the script. */
  method CountKeys(arbiters: seq<Key>) returns (n: nat)
    ensures n == NonBlank(arbiters)
  {
    n := 0;
    for i := 0 to |arbiters|
      invariant n == NonBlank(arbiters[..i])
    {
      assert arbiters[..i + 1][..i] == arbiters[..i];
      if arbiters[i] == "" {
        continue;
      }
      n := n + 1;
    }
    assert arbiters[..|arbiters|] == arbiters;
  }

  class Server {
    var contents: map<nat, Transaction>
    var signers: map<nat, set<Key>>
    ghost var model: map<nat, Pending>

    /** The map is keyed by the hash of the transaction, so no transaction is in it
        twice. */
    ghost predicate Valid()
      reads this, contents.Values
    {
      && model.Keys == contents.Keys == signers.Keys
      && forall h | h in contents :: contents[h].body == h && Holds(contents[h], model[h])
    }

    ghost predicate Holds(txn: Transaction, p: Pending)
      reads txn
    {
      txn.code == p.code && txn.parameter == p.parameter
    }

    ghost function Abs(): State
      reads this
    {
      State(model, signers)
    }

    constructor ()
      ensures Valid() && Abs() == INITIAL
    {
      contents, signers, model := map[], map[], map[];
    }

    /** The transaction is signed and its parameter set before the pending map is
        looked at. */
    method Propose(env: Env, txn: Transaction) returns (o: Outcome)
      requires Valid()
      modifies this, txn
      ensures Valid()
      ensures (Abs(), o) == Multisig.Propose(env, old(Abs()), txn.body, txn.code,
                                             old(txn.body in contents && contents[txn.body] == txn))
      ensures contents.Values <= old(contents.Values) + {txn}
    {
      var keys := CountKeys(env.arbiters);
      if keys < 2 || |env.me| == 0 || env.me !in env.arbiters {
        return Rejected;
      }
      txn.parameter := [Sig(env.me, Unsigned(txn.body))];
      if txn.body in contents {
        if contents[txn.body] == txn {
          model := model[txn.body := model[txn.body].(parameter := txn.parameter)];
        }
        return Rejected;
      }
      contents := contents[txn.body := txn];
      signers := signers[txn.body := {env.me}];
      model := model[txn.body := Pending(txn.code, txn.parameter)];
      return Proposed;
    }

    method Receive(env: Env, f: Feedback) returns (o: Outcome)
      requires Valid()
      modifies this, contents.Values
      ensures Valid()
      ensures (Abs(), o) == Multisig.Receive(env, old(Abs()), f)
      ensures contents.Values <= old(contents.Values)
    {
      if |f.target| == 0 || f.target !in env.arbiters {
        return Rejected;
      }
      if |f.scripts| != 2 {
        return Ignored;
      }
      if !Verify(f.pk, Unsigned(f.body), f.scripts[1]) {
        return Rejected;
      }
      if f.body !in contents {
        return Rejected;
      }
      if f.target in signers[f.body] {
        return Ignored;
      }
      o := MergeFeedback(env, f);
    }

    method MergeFeedback(env: Env, f: Feedback) returns (o: Outcome)
      requires Valid() && f.body in contents && |f.scripts| == 2
      modifies this, contents.Values
      ensures Valid()
      ensures (Abs(), o) == Merge(env, old(Abs()), f)
      ensures contents.Values <= old(contents.Values)
    {
      var txn := contents[f.body];
      assert Holds(txn, model[f.body]);
      var index := SignerIndex(txn.code, f.target);
      if index == -1 {
        return Rejected;
      }
      var ok, count := MergeSignToTransaction(f.scripts[1], index, txn);
      if !ok {
        return Rejected;
      }
      model := model[f.body := model[f.body].(parameter := txn.parameter)];
      signers := signers[f.body := signers[f.body] + {f.target}];
      o := Merged;
      if count >= env.needed {
        Delete(f.body, old(model), old(signers));
        o := Submitted(txn.parameter);
      }
    }

    method Delete(body: nat, ghost model0: map<nat, Pending>, ghost signers0: map<nat, set<Key>>)
      requires Valid() && body in contents
      requires model - {body} == model0 - {body} && signers - {body} == signers0 - {body}
      modifies this
      ensures Valid() && contents == old(contents) - {body}
      ensures Abs() == State(model0 - {body}, signers0 - {body})
    {
      contents := contents - {body};
      signers := signers - {body};
      model := model - {body};
    }

    method Reset()
      modifies this
      ensures Valid() && Abs() == INITIAL
    {
      contents, signers, model := map[], map[], map[];
    }
  }
}
