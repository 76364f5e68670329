/** The redeem script of the multi-signature path: written from a list of keys, taken
    apart again to find the signers. */
module RedeemScript {
  import opened Options

  type Byte = x: int | 0 <= x < 256

  /** A compressed public key. */
  const KEY_LENGTH := 33
  type Key = k: seq<Byte> | |k| == KEY_LENGTH witness seq(KEY_LENGTH, i => 0)

  const PUSH1 := 0x51
  const CROSSCHAIN: Byte := 0xAF
  const MIN_MULTI_SIGN_CODE_LENGTH := 71
  const PUBLIC_KEY_SCRIPT_LENGTH := 35

  /** A small number as an opcode, in byte arithmetic. */
  function Opcode(n: nat): Byte {
    (PUSH1 + n % 256 - 1) % 256
  }

  function KeyScript(k: Key): seq<Byte> {
    [KEY_LENGTH] + k
  }

  function KeyScripts(keys: seq<Key>): seq<Byte> {
    if keys == [] then [] else KeyScripts(keys[..|keys| - 1]) + KeyScript(keys[|keys| - 1])
  }

  /** The script for keys already in the order in which the code sorts them. */
  function Create(m: nat, keys: seq<Key>): seq<Byte> {
    [Opcode(m)] + KeyScripts(keys) + [Opcode(|keys|), CROSSCHAIN]
  }

  method CreateMultiSignRedeemScript(m: nat, keys: seq<Key>) returns (script: seq<Byte>)
    ensures script == Create(m, keys)
  {
    script := [Opcode(m)];
    for i := 0 to |keys|
      invariant script == [Opcode(m)] + KeyScripts(keys[..i])
    {
      assert keys[..i + 1][..i] == keys[..i];
      script := script + [KEY_LENGTH];
      script := script + keys[i];
    }
    assert keys[..|keys|] == keys;
    script := script + [Opcode(|keys|)];
    script := script + [CROSSCHAIN];
  }

  // ---- getMultiSignPublicKeys ------------------------------------------------------------

  const STEP := PUBLIC_KEY_SCRIPT_LENGTH - 1

  /** Cut into pieces of 34 bytes. */
  function Pieces(body: seq<Byte>): seq<seq<Byte>>
    requires |body| % STEP == 0
  {
    if body == [] then [] else Pieces(body[..|body| - STEP]) + [body[|body| - STEP..]]
  }

  function Body(script: seq<Byte>): seq<Byte>
    requires |script| >= 3
  {
    script[1..|script| - 2]
  }

  function PublicKeyScripts(script: seq<Byte>): Option<seq<seq<Byte>>> {
    if |script| < MIN_MULTI_SIGN_CODE_LENGTH || script[|script| - 1] != CROSSCHAIN then None
    else if |Body(script)| % STEP != 0 then None
    else Some(Pieces(Body(script)))
  }

  method GetMultiSignPublicKeys(script: seq<Byte>) returns (r: Option<seq<seq<Byte>>>)
    ensures r == PublicKeyScripts(script)
  {
    if |script| < MIN_MULTI_SIGN_CODE_LENGTH || script[|script| - 1] != CROSSCHAIN {
      return None;
    }
    var body := script[..|script| - 1];
    body := body[1..];
    body := body[..|body| - 1];
    assert body == Body(script);
    if |body| % STEP != 0 {
      return None;
    }
    var pieces: seq<seq<Byte>> := [];
    var i := 0;
    while i < |body|
      invariant 0 <= i <= |body| && i % STEP == 0 && pieces == Pieces(body[..i])
    {
      OnePiece(body, i);
      pieces := pieces + [body[i..i + STEP]];
      i := i + STEP;
    }
    assert body[..i] == body;
    return Some(pieces);
  }

  lemma OnePiece(body: seq<Byte>, i: nat)
    requires |body| % STEP == 0 && i % STEP == 0 && i < |body|
    ensures i + STEP <= |body| && (i + STEP) % STEP == 0
    ensures Pieces(body[..i + STEP]) == Pieces(body[..i]) + [body[i..i + STEP]]
  {
    NextMultiple(|body|, i);
    var taken := body[..i + STEP];
    assert taken[..|taken| - STEP] == body[..i] && taken[|taken| - STEP..] == body[i..i + STEP];
  }

  lemma NextMultiple(n: nat, i: nat)
    requires n % STEP == 0 && i % STEP == 0 && i < n
    ensures i + STEP <= n && (i + STEP) % STEP == 0
  {
  }

  // ---- round trip ------------------------------------------------------------------------------

  function AllScripts(keys: seq<Key>): (ss: seq<seq<Byte>>)
    ensures |ss| == |keys|
  {
    seq(|keys|, i requires 0 <= i < |keys| => KeyScript(keys[i]))
  }

  lemma {:induction false} PiecesOfScripts(keys: seq<Key>)
    ensures |KeyScripts(keys)| == STEP * |keys| && |KeyScripts(keys)| % STEP == 0
    ensures Pieces(KeyScripts(keys)) == AllScripts(keys)
  {
    if keys != [] {
      var init, last := keys[..|keys| - 1], keys[|keys| - 1];
      PiecesOfScripts(init);
      var body := KeyScripts(keys);
      assert body[..|body| - STEP] == KeyScripts(init) && body[|body| - STEP..] == KeyScript(last);
      assert AllScripts(keys) == AllScripts(init) + [KeyScript(last)];
    }
  }

  /** The script byte by byte: the required number, each key behind its length, the
      number of keys, and the mark of a cross-chain script. */
  lemma ScriptSpells(m: nat, keys: seq<Key>, script: seq<Byte>)
    requires script == Create(m, keys)
    ensures |script| == 34 * |keys| + 3
    ensures script[0] == (0x50 + m) % 256 && script[|script| - 2] == (0x50 + |keys|) % 256
    ensures script[|script| - 1] == 0xAF
    ensures forall i | 0 <= i < |keys| :: HoldsKey(script, i, keys[i])
  {
    ScriptEnds(m, keys, script);
    forall i | 0 <= i < |keys| ensures HoldsKey(script, i, keys[i]) {
      ScriptHolds(m, keys, script, i);
    }
  }

  lemma ScriptEnds(m: nat, keys: seq<Key>, script: seq<Byte>)
    requires script == Create(m, keys)
    ensures |script| == 34 * |keys| + 3
    ensures script[0] == (0x50 + m) % 256 && script[|script| - 2] == (0x50 + |keys|) % 256
    ensures script[|script| - 1] == 0xAF
  {
    PiecesOfScripts(keys);
    OpcodeIs(m);
    OpcodeIs(|keys|);
  }

  lemma OpcodeIs(n: nat)
    ensures Opcode(n) == (0x50 + n) % 256
  {
  }

  lemma ScriptHolds(m: nat, keys: seq<Key>, script: seq<Byte>, i: nat)
    requires script == Create(m, keys) && i < |keys|
    ensures HoldsKey(script, i, keys[i])
  {
    KeyAt(keys, i);
    KeyShifts(script, [Opcode(m)], KeyScripts(keys), [Opcode(|keys|), CROSSCHAIN], i, keys[i]);
  }

  /** Key i stands at its place behind the first byte. */
  predicate HoldsKey(script: seq<Byte>, i: nat, k: Key) {
    |script| >= 35 + 34 * i && script[1 + 34 * i] == 33 && script[2 + 34 * i..35 + 34 * i] == k
  }

  lemma KeyShifts(script: seq<Byte>, first: seq<Byte>, body: seq<Byte>, rest: seq<Byte>, i: nat, k: Key)
    requires script == first + body + rest && |first| == 1 && 34 * i + 34 <= |body|
    requires body[34 * i] == 33 && body[34 * i + 1..34 * i + 34] == k
    ensures HoldsKey(script, i, k)
  {
    assert script[2 + 34 * i..35 + 34 * i] == body[34 * i + 1..34 * i + 34];
  }

  lemma {:induction false} KeyAt(keys: seq<Key>, i: nat)
    requires i < |keys|
    ensures |KeyScripts(keys)| == 34 * |keys|
    ensures var body := KeyScripts(keys);
            body[34 * i] == 33 && body[34 * i + 1..34 * i + 34] == keys[i]
    decreases |keys|
  {
    PiecesOfScripts(keys);
    var init, last := keys[..|keys| - 1], keys[|keys| - 1];
    PiecesOfScripts(init);
    var body := KeyScripts(keys);
    assert body == KeyScripts(init) + KeyScript(last);
    if i < |keys| - 1 {
      KeyAt(init, i);
      assert body[34 * i + 1..34 * i + 34] == KeyScripts(init)[34 * i + 1..34 * i + 34];
    } else {
      assert body[34 * i + 1..34 * i + 34] == last;
    }
  }

  /** For numbers that fit an opcode, the script tells the required number, the number
      of keys, and the keys: two such scripts are the same only if all three are. */
  lemma ScriptsDiffer(m: nat, keys: seq<Key>, m': nat, keys': seq<Key>)
    requires m < 176 && m' < 176 && |keys| < 176 && |keys'| < 176
    ensures var script := Create(m, keys);
            m == script[0] - 0x50 && |keys| == script[|script| - 2] - 0x50 && script[|script| - 1] == 0xAF
    ensures Create(m, keys) == Create(m', keys') <==> m == m' && keys == keys'
  {
    ScriptSpells(m, keys, Create(m, keys));
    if Create(m, keys) == Create(m', keys') {
      SameKeys(m, keys, m', keys', Create(m, keys));
    }
  }

  lemma SameKeys(m: nat, keys: seq<Key>, m': nat, keys': seq<Key>, script: seq<Byte>)
    requires m < 176 && m' < 176 && script == Create(m, keys) && script == Create(m', keys')
    ensures m == m' && keys == keys'
  {
    ScriptSpells(m, keys, script);
    ScriptSpells(m', keys', script);
    forall i | 0 <= i < |keys| ensures keys[i] == keys'[i] {
      assert HoldsKey(script, i, keys[i]) && HoldsKey(script, i, keys'[i]);
    }
  }

  /** Any script is taken apart exactly when it has at least 71 bytes, ends in the mark,
      and holds whole pieces of 34 bytes between the two numbers; these are the result. */
  lemma ReadIff(script: seq<Byte>)
    ensures var r, n := PublicKeyScripts(script), |script|;
            && (r.Some? <==> n >= 71 && script[n - 1] == 0xAF && (n - 3) % 34 == 0)
            && (r.Some? ==> |r.value| == (n - 3) / 34
                            && forall i | 0 <= i < |r.value| :: r.value[i] == script[1 + 34 * i..35 + 34 * i])
  {
    var r := PublicKeyScripts(script);
    if r.Some? {
      PiecesAre(Body(script));
      forall i | 0 <= i < |r.value| ensures r.value[i] == script[1 + 34 * i..35 + 34 * i] {
        PieceShifts(script, i);
      }
    }
  }

  lemma PieceShifts(script: seq<Byte>, i: nat)
    requires |script| >= 3 && 34 * i + 34 <= |Body(script)|
    ensures Body(script)[34 * i..34 * i + 34] == script[1 + 34 * i..35 + 34 * i]
  {
    SliceOfSlice(script, 1, |script| - 2, 34 * i, 34 * i + 34);
  }

  lemma SliceOfSlice(s: seq<Byte>, from: nat, to: nat, lo: nat, hi: nat)
    requires from <= to <= |s| && lo <= hi <= to - from
    ensures s[from..to][lo..hi] == s[from + lo..from + hi]
  {
    var a, b := s[from..to][lo..hi], s[from + lo..from + hi];
    assert |a| == |b| == hi - lo;
    forall k | 0 <= k < hi - lo ensures a[k] == b[k] {
      assert a[k] == s[from..to][lo + k] == s[from + (lo + k)];
    }
  }

  lemma {:induction false} PiecesAre(body: seq<Byte>)
    requires |body| % STEP == 0
    ensures 34 * |Pieces(body)| == |body|
    ensures forall i | 0 <= i < |Pieces(body)| :: Pieces(body)[i] == body[34 * i..34 * i + 34]
  {
    if body != [] {
      var init := body[..|body| - STEP];
      PiecesAre(init);
      forall i | 0 <= i < |Pieces(body)| ensures Pieces(body)[i] == body[34 * i..34 * i + 34] {
        if i < |Pieces(init)| {
          assert Pieces(body)[i] == Pieces(init)[i] == init[34 * i..34 * i + 34];
        }
      }
    }
  }

  /** Taking a created script apart gives back the keys in order, exactly if there are
      at least two of them; a shorter script fails the length test. */
  lemma ScriptRoundTrip(m: nat, keys: seq<Key>)
    ensures PublicKeyScripts(Create(m, keys)) == if |keys| >= 2 then Some(AllScripts(keys)) else None
  {
    PiecesOfScripts(keys);
    assert Body(Create(m, keys)) == KeyScripts(keys);
  }

  /** Position of a signer: the last one whose key matches, or -1. Program hashes are
      compared in the code; they are injective in the key. */
  function SignerIndex(scripts: seq<seq<Byte>>, k: Key): (index: int)
    requires forall s | s in scripts :: |s| > 0
    ensures -1 <= index < |scripts|
  {
    if scripts == [] then -1
    else if scripts[|scripts| - 1][1..] == k then |scripts| - 1
    else SignerIndex(scripts[..|scripts| - 1], k)
  }

  lemma {:induction false} SignerIndexIs(keys: seq<Key>, k: Key)
    ensures forall s | s in AllScripts(keys) :: |s| > 0
    ensures var index := SignerIndex(AllScripts(keys), k);
            if k in keys then index >= 0 && keys[index] == k && k !in keys[index + 1..] else index == -1
  {
    if keys != [] {
      var init, last := keys[..|keys| - 1], keys[|keys| - 1];
      SignerIndexIs(init, k);
      assert AllScripts(keys)[..|keys| - 1] == AllScripts(init);
      assert KeyScript(last)[1..] == last;
      assert keys == init + [last];
    }
  }

  /** Sign finds the arbiter in the script. */
  predicate CanSign(script: seq<Byte>, k: Key) {
    var scripts := PublicKeyScripts(script);
    scripts.Some? && (forall s | s in scripts.value :: |s| > 0) && SignerIndex(scripts.value, k) != -1
  }

  /** Whatever order the keys are sorted into, exactly the arbiters of the list can
      sign, provided there are at least two. */
  lemma OnlyListedArbitersSign(m: nat, arbiters: seq<Key>, sorted: seq<Key>, k: Key)
    requires multiset(arbiters) == multiset(sorted)
    ensures CanSign(Create(m, sorted), k) <==> |arbiters| >= 2 && k in arbiters
  {
    ScriptRoundTrip(m, sorted);
    SignerIndexIs(sorted, k);
    assert |arbiters| == |multiset(arbiters)| == |multiset(sorted)| == |sorted|;
    assert k in arbiters <==> k in multiset(arbiters);
    assert k in sorted <==> k in multiset(sorted);
  }
}
