/** The loop that picks the inputs of a transaction. The withdraw builders, the
    failed-deposit builder and the two side-mining builders all contain it. */
module CoinSelection {
  import opened Sums

  datatype Utxo = Utxo(id: nat, amount: int)

  /** `change` is what goes back to the spender, 0 for no change output. */
  datatype Selection = NotEnough | Selected(inputs: seq<Utxo>, change: int)

  function Amount(): Utxo -> int {
    (u: Utxo) => u.amount
  }

  function Select(utxos: seq<Utxo>, total: int): Selection {
    if utxos == [] then
      if total > 0 then NotEnough else Selected([], 0)
    else if utxos[0].amount < total then
      Prepend([utxos[0]], Select(utxos[1..], total - utxos[0].amount))
    else
      Selected([utxos[0]], utxos[0].amount - total)
  }

  function Prepend(first: seq<Utxo>, rest: Selection): Selection {
    match rest
    case NotEnough => NotEnough
    case Selected(inputs, change) => Selected(first + inputs, change)
  }

  /** The loop, with the outstanding total counted down. */
  method SelectInputs(utxos: seq<Utxo>, total: int) returns (r: Selection)
    ensures r == Select(utxos, total)
  {
    var outstanding, change := total, 0;
    var inputs: seq<Utxo> := [];
    var i := 0;
    while i < |utxos|
      invariant 0 <= i <= |utxos| && inputs == utxos[..i] && change == 0
      invariant Select(utxos, total) == Prepend(inputs, Select(utxos[i..], outstanding))
    {
      var utxo := utxos[i];
      assert utxos[i..][1..] == utxos[i + 1..];
      inputs := inputs + [utxo];
      if utxo.amount < outstanding {
        PrependTwice(utxos[..i], [utxo], Select(utxos[i + 1..], outstanding - utxo.amount));
        outstanding := outstanding - utxo.amount;
        i := i + 1;
      } else if utxo.amount == outstanding {
        outstanding := 0;
        break;
      } else {
        change := utxo.amount - outstanding;
        outstanding := 0;
        break;
      }
    }
    r := if outstanding > 0 then NotEnough else Selected(inputs, change);
  }

  lemma PrependTwice(first: seq<Utxo>, second: seq<Utxo>, rest: Selection)
    ensures Prepend(first, Prepend(second, rest)) == Prepend(first + second, rest)
  {
    if rest.Selected? {
      assert first + (second + rest.inputs) == first + second + rest.inputs;
    }
  }

  predicate Positive(utxos: seq<Utxo>) {
    forall i | 0 <= i < |utxos| :: utxos[i].amount > 0
  }

  /** For any total that is not negative the selection balances, and it succeeds
      exactly when the available outputs cover the total. */
  lemma {:induction false} SelectionBalances(utxos: seq<Utxo>, total: int)
    requires Positive(utxos) && total >= 0
    ensures var r := Select(utxos, total);
            && (r.Selected? <==> SumOf(utxos, Amount()) >= total)
            && (r.Selected? ==> r.inputs <= utxos && SumOf(r.inputs, Amount()) == total + r.change && r.change >= 0)
    decreases |utxos|
  {
    if utxos != [] {
      var first, rest := utxos[0], utxos[1..];
      assert utxos == [first] + rest;
      SumFirst(first, rest, Amount());
      SumVanishes(rest, Amount());
      SumFirst(first, [], Amount());
      if first.amount < total {
        SelectionBalances(rest, total - first.amount);
        var r := Select(rest, total - first.amount);
        if r.Selected? {
          SumFirst(first, r.inputs, Amount());
        }
      } else {
        assert [first] + [] == [first];
      }
    }
  }

  /** For a positive total it takes the shortest prefix that suffices, and gives
      back less than its last input is worth. */
  lemma {:induction false} SelectionIsShortest(utxos: seq<Utxo>, total: int, k: nat)
    requires Positive(utxos) && total > 0 && Select(utxos, total).Selected?
    ensures var r := Select(utxos, total);
            && r.inputs != [] && r.change < r.inputs[|r.inputs| - 1].amount
            && (k <= |utxos| ==> (SumOf(utxos[..k], Amount()) >= total <==> k >= |r.inputs|))
    decreases |utxos|
  {
    var first, rest := utxos[0], utxos[1..];
    if 0 < k <= |utxos| {
      assert utxos[..k] == [first] + rest[..k - 1];
      SumFirst(first, rest[..k - 1], Amount());
      SumVanishes(rest[..k - 1], Amount());
    }
    if first.amount < total {
      SelectionIsShortest(rest, total - first.amount, if k > 0 then k - 1 else 0);
      SelectionBalances(rest, total - first.amount);
    }
  }
}
