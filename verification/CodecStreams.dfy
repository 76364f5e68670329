/** The codecs as the code runs them: writing to and reading from a stream, filling in
    the fields of a message step by step. Each is proved to do what Codec says. */
module CodecStreams {
  import opened Codec
  import opened Options

  class Stream {
    var tokens: Tokens

    constructor ()
      ensures tokens == []
    {
      tokens := [];
    }

    method Write(t: Token)
      modifies this
      ensures tokens == old(tokens) + [t]
    {
      tokens := tokens + [t];
    }

    method ReadVarBytes(max: nat) returns (ok: bool, bytes: Bytes)
      modifies this
      ensures Left(old(tokens), ok, bytes, ReadBytes(old(tokens), max))
    {
      ok, bytes := false, [];
      if tokens != [] && tokens[0].VarBytes? && |tokens[0].bytes| <= max {
        ok, bytes := true, tokens[0].bytes;
        tokens := tokens[1..];
      }
    }

    method ReadBigInt(max: nat) returns (ok: bool, n: nat)
      modifies this
      ensures Left(old(tokens), ok, n, ReadBig(old(tokens), max))
    {
      var bytes;
      ok, bytes := ReadVarBytes(max);
      n := FromBytes(bytes);
    }

    /** What a reader returns and leaves behind: as the parser says, if it succeeds. */
    ghost predicate Left<T>(before: Tokens, ok: bool, value: T, p: Parsed<T>)
      reads this
    {
      (ok <==> p.Parsed?) && (ok ==> value == p.value && tokens == p.rest)
    }
  }

  // ---- a list of keys -------------------------------------------------------------------------

  method SerializeKeys(w: Stream, pks: seq<Bytes>)
    modifies w
    ensures w.tokens == old(w.tokens) + [VarUint(|pks|)] + WriteKeys(pks)
  {
    w.Write(VarUint(|pks|));
    ghost var all := w.tokens + WriteKeys(pks);
    for i := 0 to |pks|
      invariant w.tokens + WriteKeys(pks[i..]) == all
    {
      assert pks[i..][1..] == pks[i + 1..];
      w.Write(VarBytes(pks[i]));
    }
    assert pks[|pks|..] == [] && w.tokens + [] == w.tokens;
  }

  function Onto(done: seq<Bytes>, p: Parsed<seq<Bytes>>): Parsed<seq<Bytes>> {
    if p.Failed? then Failed else Parsed(done + p.value, p.rest)
  }

  method DeserializeKeys(r: Stream, count: nat) returns (ok: bool, pks: seq<Bytes>)
    modifies r
    ensures r.Left(old(r.tokens), ok, pks, ReadKeys(old(r.tokens), count))
  {
    pks := [];
    assert forall p: Parsed<seq<Bytes>> | p.Parsed? :: [] + p.value == p.value;
    for i := 0 to count
      invariant ReadKeys(old(r.tokens), count) == Onto(pks, ReadKeys(r.tokens, count - i))
    {
      var pk;
      ok, pk := r.ReadVarBytes(MAX_KEY);
      if !ok {
        return false, [];
      }
      assert forall p: Parsed<seq<Bytes>> | p.Parsed? :: pks + ([pk] + p.value) == pks + [pk] + p.value;
      pks := pks + [pk];
    }
    assert pks + [] == pks;
    ok := true;
  }

  // ---- the assets of a withdrawal ----------------------------------------------------------------

  method SerializeAsset(w: Stream, a: Asset)
    modifies w
    ensures w.tokens == old(w.tokens) + WriteAsset(a)
  {
    w.Write(VarBytes(a.target));
    w.Write(Fixed(a.amount));
    w.Write(Fixed(a.crossChain));
    w.Write(VarBytes(a.data));
  }

  method SerializeWithdraw(w: Stream, t: WithdrawTx)
    modifies w
    ensures w.tokens == old(w.tokens) + WriteWithdraw(t)
  {
    w.Write(Hash(t.id));
    w.Write(VarUint(|t.assets|));
    ghost var all := w.tokens + WriteAssets(t.assets);
    for i := 0 to |t.assets|
      invariant w.tokens + WriteAssets(t.assets[i..]) == all
    {
      assert t.assets[i..][1..] == t.assets[i + 1..];
      SerializeAsset(w, t.assets[i]);
    }
    assert t.assets[|t.assets|..] == [] && w.tokens + [] == w.tokens;
  }

  function OntoAssets(done: seq<Asset>, p: Parsed<seq<Asset>>): Parsed<seq<Asset>> {
    if p.Failed? then Failed else Parsed(done + p.value, p.rest)
  }

  method DeserializeAsset(r: Stream) returns (ok: bool, a: Asset)
    modifies r
    ensures r.Left(old(r.tokens), ok, a, ReadAsset(old(r.tokens)))
  {
    a := Asset([], 0, 0, []);
    if |r.tokens| < 4 || !r.tokens[0].VarBytes? || !r.tokens[1].Fixed? || !r.tokens[2].Fixed? {
      return false, a;
    }
    var target, amount, crossChain := r.tokens[0].bytes, r.tokens[1].v, r.tokens[2].v;
    r.tokens := r.tokens[3..];
    var data;
    ok, data := r.ReadVarBytes(MAX_TARGET_DATA);
    a := Asset(target, amount, crossChain, data);
  }

  /** Without success the record keeps what was read before the failure. */
  method DeserializeWithdraw(r: Stream) returns (ok: bool, t: WithdrawTx)
    modifies r
    ensures r.Left(old(r.tokens), ok, t, ReadWithdraw(old(r.tokens)))
    ensures t == Salvaged(old(r.tokens))
  {
    t := WithdrawTx(0, []);
    if r.tokens == [] || !r.tokens[0].Hash? {
      return false, t;
    }
    t := WithdrawTx(r.tokens[0].h, []);
    if |r.tokens| < 2 || !r.tokens[1].VarUint? {
      return false, t;
    }
    var count := r.tokens[1].n;
    r.tokens := r.tokens[2..];
    var assets;
    ok, assets := DeserializeAssets(r, count);
    t := t.(assets := assets);
  }

  method DeserializeAssets(r: Stream, count: nat) returns (ok: bool, assets: seq<Asset>)
    modifies r
    ensures r.Left(old(r.tokens), ok, assets, ReadAssets(old(r.tokens), count))
    ensures assets == ReadSome(old(r.tokens), count)
  {
    assets := [];
    NothingRead(ReadAssets(r.tokens, count), ReadSome(r.tokens, count));
    for i := 0 to count
      invariant ReadAssets(old(r.tokens), count) == OntoAssets(assets, ReadAssets(r.tokens, count - i))
      invariant ReadSome(old(r.tokens), count) == assets + ReadSome(r.tokens, count - i)
    {
      ghost var before := r.tokens;
      var a;
      ok, a := DeserializeAsset(r);
      if !ok {
        assert ReadSome(before, count - i) == [] && assets + [] == assets;
        return false, assets;
      }
      OneMoreRead(assets, a, before, r.tokens, count - i);
      assets := assets + [a];
    }
    assert assets + [] == assets;
    ok := true;
  }

  lemma NothingRead(p: Parsed<seq<Asset>>, some: seq<Asset>)
    ensures OntoAssets([], p) == p && [] + some == some
  {
    assert p.Parsed? ==> [] + p.value == p.value;
  }

  lemma OneMoreRead(assets: seq<Asset>, a: Asset, before: Tokens, after: Tokens, count: nat)
    requires count > 0 && ReadAsset(before) == Parsed(a, after)
    ensures OntoAssets(assets, ReadAssets(before, count)) == OntoAssets(assets + [a], ReadAssets(after, count - 1))
    ensures assets + ReadSome(before, count) == assets + [a] + ReadSome(after, count - 1)
  {
    var p := ReadAssets(after, count - 1);
    assert p.Parsed? ==> assets + ([a] + p.value) == assets + [a] + p.value;
    assert assets + ([a] + ReadSome(after, count - 1)) == assets + [a] + ReadSome(after, count - 1);
  }

  // ---- the contents of the Schnorr phases ------------------------------------------------------------

  method SerializeS(w: Stream, c: SContent, feedback: bool)
    modifies w
    ensures w.tokens == old(w.tokens) + WriteS(c, feedback)
  {
    w.Write(Hash(c.nonceHash));
    w.Write(Tx(c.tx, false));
    SerializeKeys(w, c.pks);
    w.Write(Big(c.e));
    if feedback {
      w.Write(Big(c.s));
    }
  }

  method DeserializeS(r: Stream, feedback: bool) returns (ok: bool, c: SContent)
    modifies r
    ensures r.Left(old(r.tokens), ok, c, ReadS(old(r.tokens), feedback))
  {
    c := NO_S;
    if |r.tokens| < 3 || !r.tokens[0].Hash? || !r.tokens[1].Tx? || r.tokens[1].whole || !r.tokens[2].VarUint? {
      return false, c;
    }
    c := c.(nonceHash := r.tokens[0].h, tx := r.tokens[1].t);
    var count := r.tokens[2].n;
    r.tokens := r.tokens[3..];
    var pks, e, s;
    ok, pks := DeserializeKeys(r, count);
    if !ok {
      return;
    }
    ok, e := r.ReadBigInt(MAX_BIG);
    if !ok {
      return;
    }
    c := c.(pks := pks, e := e);
    if feedback {
      ok, s := r.ReadBigInt(MAX_BIG);
      c := c.(s := s);
    }
  }

  method SerializeR(w: Stream, c: RContent, feedback: bool)
    modifies w
    ensures w.tokens == old(w.tokens) + WriteR(c, feedback)
  {
    w.Write(VarBytes(c.nonce));
    if feedback {
      w.Write(Big(c.r.k0));
      w.Write(Big(c.r.rx));
      w.Write(Big(c.r.ry));
      w.Write(Big(c.r.px));
      w.Write(Big(c.r.py));
    }
  }

  method DeserializeKrp(r: Stream) returns (ok: bool, v: Krp)
    modifies r
    ensures r.Left(old(r.tokens), ok, v, ReadKrp(old(r.tokens)))
  {
    v := NO_KRP;
    var k0, rx, ry, px, py;
    ok, k0 := r.ReadBigInt(MAX_POINT);
    if !ok {
      return;
    }
    ok, rx := r.ReadBigInt(MAX_POINT);
    if !ok {
      return;
    }
    ok, ry := r.ReadBigInt(MAX_POINT);
    if !ok {
      return;
    }
    ok, px := r.ReadBigInt(MAX_POINT);
    if !ok {
      return;
    }
    ok, py := r.ReadBigInt(MAX_POINT);
    v := Krp(k0, rx, ry, px, py);
  }

  method DeserializeR(r: Stream, feedback: bool) returns (ok: bool, c: RContent)
    modifies r
    ensures r.Left(old(r.tokens), ok, c, ReadR(old(r.tokens), feedback))
  {
    c := NO_R;
    var nonce;
    ok, nonce := r.ReadVarBytes(MAX_POINT);
    if !ok {
      return;
    }
    c := c.(nonce := nonce);
    if feedback {
      var krp;
      ok, krp := DeserializeKrp(r);
      c := c.(r := krp);
    }
  }

  // ---- DistributedItem ------------------------------------------------------------------------------------

  class DistributedItem {
    var item: Item

    constructor (x: Item)
      ensures item == x
    {
      item := x;
    }

    method Serialize(w: Stream)
      requires Writable(item)
      modifies w
      ensures w.tokens == old(w.tokens) + WriteItem(item)
    {
      SerializeHeader(w);
      ghost var header := w.tokens;
      SerializeBody(w);
      assert header + WriteBody(item) == old(w.tokens) + (WriteHeader(item) + WriteBody(item));
    }

    method SerializeHeader(w: Stream)
      modifies w
      ensures w.tokens == old(w.tokens) + WriteHeader(item)
    {
      w.Write(VarBytes(item.key));
      w.Write(Hash(item.programHash));
      w.Write(U8(item.txType));
      w.Write(U8(item.kind));
    }

    method SerializeBody(w: Stream)
      requires Writable(item)
      modifies w
      ensures w.tokens == old(w.tokens) + WriteBody(item)
    {
      if item.kind == MULTISIG || item.kind == ANSWER_MULTISIG {
        w.Write(Tx(item.content.value, true));
        w.Write(VarBytes(item.redeemScript));
        w.Write(VarBytes(item.signedData));
      } else if item.kind == ILLEGAL || item.kind == ANSWER_ILLEGAL {
        w.Write(VarBytes(item.redeemScript));
        w.Write(VarBytes(item.signedData));
      } else if item.kind == SCHNORR_R {
        SerializeR(w, item.r, false);
      } else if item.kind == ANSWER_SCHNORR_R {
        SerializeR(w, item.r, true);
        w.Write(VarBytes(item.signedData));
      } else if item.kind == SCHNORR_S {
        SerializeS(w, item.s, false);
      } else if item.kind == ANSWER_SCHNORR_S {
        SerializeS(w, item.s, true);
        w.Write(VarBytes(item.signedData));
      }
    }

    /** Into a new item: fields the type tag does not carry keep their defaults. */
    method Deserialize(r: Stream) returns (ok: bool)
      requires item == Blank([], 0, 0, 0)
      modifies this, r
      ensures r.Left(old(r.tokens), ok, item, ReadItem(old(r.tokens)))
    {
      var key;
      ok, key := r.ReadVarBytes(MAX_SENDER_KEY);
      if !ok {
        return;
      }
      if |r.tokens| < 3 || !r.tokens[0].Hash? || !r.tokens[1].U8? || !r.tokens[2].U8? {
        return false;
      }
      item := item.(key := key, programHash := r.tokens[0].h, txType := r.tokens[1].b, kind := r.tokens[2].b);
      r.tokens := r.tokens[3..];
      ok := DeserializeBody(r);
    }

    method DeserializeBody(r: Stream) returns (ok: bool)
      modifies this, r
      ensures r.Left(old(r.tokens), ok, item, ReadBody(old(item), old(r.tokens)))
    {
      ok := true;
      if item.kind == MULTISIG || item.kind == ANSWER_MULTISIG {
        if r.tokens == [] || !r.tokens[0].Tx? {
          return;
        }
        if !r.tokens[0].whole {
          return false;
        }
        item := item.(content := Some(r.tokens[0].t));
        r.tokens := r.tokens[1..];
        ok := DeserializeScripts(r);
      } else if item.kind == ILLEGAL || item.kind == ANSWER_ILLEGAL {
        ok := DeserializeScripts(r);
      } else if item.kind == SCHNORR_R || item.kind == ANSWER_SCHNORR_R {
        var c;
        ok, c := DeserializeR(r, item.kind == ANSWER_SCHNORR_R);
        if !ok {
          return;
        }
        item := item.(r := c);
        if item.kind == ANSWER_SCHNORR_R {
          ok := DeserializeSigned(r);
        }
      } else if item.kind == SCHNORR_S || item.kind == ANSWER_SCHNORR_S {
        var c;
        ok, c := DeserializeS(r, item.kind == ANSWER_SCHNORR_S);
        if !ok {
          return;
        }
        item := item.(s := c);
        if item.kind == ANSWER_SCHNORR_S {
          ok := DeserializeSigned(r);
        }
      }
    }

    method DeserializeScripts(r: Stream) returns (ok: bool)
      modifies this, r
      ensures r.Left(old(r.tokens), ok, item, ReadScripts(old(item), old(r.tokens)))
    {
      var script;
      ok, script := r.ReadVarBytes(MAX_REDEEM_SCRIPT);
      if ok {
        item := item.(redeemScript := script);
        ok := DeserializeSigned(r);
      }
    }

    method DeserializeSigned(r: Stream) returns (ok: bool)
      modifies this, r
      ensures r.Left(old(r.tokens), ok, item, ReadSigned(old(item), old(r.tokens)))
    {
      var data;
      ok, data := r.ReadVarBytes(MAX_SIGNED_DATA);
      if ok {
        item := item.(signedData := data);
      }
    }
  }
}
