/** The messages arbiters exchange and the records they store.

    Below the fields lies the encoding of the ELA library, whose items can be read
    back one by one: a stream is modelled as the list of those items. What is modelled
    in full is what this repository adds: which fields are written, in which order and
    under which type tag, the loops, big integers as bytes, and the length limits that
    only the reader enforces. */
module Codec {
  import opened Options

  type Byte = x: int | 0 <= x < 256
  type Bytes = seq<Byte>

  /** VarBytes, VarUint, Uint256/Uint168, uint8, Fixed64, and a transaction without or
      with its programs. */
  datatype Token =
    | VarBytes(bytes: Bytes)
    | VarUint(n: nat)
    | Hash(h: nat)
    | U8(b: Byte)
    | Fixed(v: int)
    | Tx(t: nat, whole: bool)

  type Tokens = seq<Token>

  datatype Parsed<T> = Failed | Parsed(value: T, rest: Tokens)

  // ---- big integers ------------------------------------------------------------------------

  /** big.Int.Bytes and SetBytes: big endian, no leading zero. */
  function ToBytes(n: nat): Bytes {
    if n == 0 then [] else ToBytes(n / 256) + [n % 256]
  }

  function FromBytes(bs: Bytes): nat {
    if bs == [] then 0 else FromBytes(bs[..|bs| - 1]) * 256 + bs[|bs| - 1]
  }

  function Power(k: nat): (p: nat)
    ensures p >= 1
  {
    if k == 0 then 1 else 256 * Power(k - 1)
  }

  lemma {:induction false} BytesRoundTrip(n: nat)
    ensures FromBytes(ToBytes(n)) == n
  {
    if n != 0 {
      BytesRoundTrip(n / 256);
      assert ToBytes(n)[..|ToBytes(n)| - 1] == ToBytes(n / 256);
    }
  }

  /** The bytes in front count for more, and there is no zero in front. */
  lemma {:induction false} BigEndian(a: Bytes, b: Bytes)
    ensures FromBytes(a + b) == FromBytes(a) * Power(|b|) + FromBytes(b)
  {
    if b == [] {
      assert a + b == a;
    } else {
      var init, last := b[..|b| - 1], b[|b| - 1];
      BigEndian(a, init);
      assert (a + b)[..|a + b| - 1] == a + init && (a + b)[|a + b| - 1] == last;
      assert FromBytes(a) * Power(|init|) * 256 == FromBytes(a) * Power(|b|);
    }
  }

  lemma {:induction false} NoLeadingZero(n: nat)
    requires n > 0
    ensures ToBytes(n) != [] && ToBytes(n)[0] != 0
  {
    if n >= 256 {
      NoLeadingZero(n / 256);
    }
  }

  /** k bytes hold exactly the numbers below 256 to the k. */
  lemma {:induction false} BytesLength(n: nat, k: nat)
    ensures |ToBytes(n)| <= k <==> n < Power(k)
  {
    if n != 0 && k != 0 {
      BytesLength(n / 256, k - 1);
    }
  }

  lemma {:induction false} PowerAdd(a: nat, b: nat)
    ensures Power(a + b) == Power(a) * Power(b)
  {
    if a != 0 {
      PowerAdd(a - 1, b);
      assert 256 * Power(a - 1) * Power(b) == 256 * (Power(a - 1) * Power(b));
    }
  }

  lemma ProductBelow(e: nat, d: nat, a: nat, b: nat)
    requires e < a && d < b
    ensures e * d < a * b
  {
    assert e * d <= e * b;
    assert e * b < a * b;
  }

  /** A share is the product of two numbers of k bytes, not reduced: it never needs
      more than 2k bytes. Challenge and private key have 32, so a share has at most 64,
      where the reader allows 65. */
  lemma ShareFits(e: nat, d: nat, k: nat)
    requires e < Power(k) && d < Power(k)
    ensures |ToBytes(e * d)| <= 2 * k
    ensures k == 32 ==> |ToBytes(e * d)| < MAX_BIG
  {
    ProductBelow(e, d, Power(k), Power(k));
    PowerAdd(k, k);
    BytesLength(e * d, k + k);
  }

  const MAX_BIG := 65              // e and s
  const MAX_POINT := 64            // nonce and coordinates in KRP, and the nonce
  const MAX_KEY := 33              // a signer's key
  const MAX_SENDER_KEY := 35       // crypto.PublicKeyScriptLength
  const MAX_REDEEM_SCRIPT := 10000
  const MAX_SIGNED_DATA := 130     // crypto.SignatureScriptLength * 2
  const MAX_TARGET_DATA := 1024

  // ---- the content of the two Schnorr phases ---------------------------------------------------

  datatype Krp = Krp(k0: nat, rx: nat, ry: nat, px: nat, py: nat)
  datatype RContent = RContent(nonce: Bytes, r: Krp)
  datatype SContent = SContent(nonceHash: nat, tx: nat, pks: seq<Bytes>, e: nat, s: nat)

  function Big(n: nat): Token {
    VarBytes(ToBytes(n))
  }

  function WriteKrp(r: Krp): Tokens {
    [Big(r.k0), Big(r.rx), Big(r.ry), Big(r.px), Big(r.py)]
  }

  function WriteR(c: RContent, feedback: bool): Tokens {
    [VarBytes(c.nonce)] + if feedback then WriteKrp(c.r) else []
  }

  function WriteKeys(pks: seq<Bytes>): Tokens {
    if pks == [] then [] else [VarBytes(pks[0])] + WriteKeys(pks[1..])
  }

  function WriteS(c: SContent, feedback: bool): Tokens {
    [Hash(c.nonceHash), Tx(c.tx, false), VarUint(|c.pks|)] + WriteKeys(c.pks)
      + [Big(c.e)] + if feedback then [Big(c.s)] else []
  }

  function ReadBytes(s: Tokens, max: nat): Parsed<Bytes> {
    if s != [] && s[0].VarBytes? && |s[0].bytes| <= max then Parsed(s[0].bytes, s[1..]) else Failed
  }

  function ReadBig(s: Tokens, max: nat): Parsed<nat> {
    var p := ReadBytes(s, max);
    if p.Failed? then Failed else Parsed(FromBytes(p.value), p.rest)
  }

  function ReadKrp(s: Tokens): Parsed<Krp> {
    var k0 := ReadBig(s, MAX_POINT);
    if k0.Failed? then Failed
    else
      var rx := ReadBig(k0.rest, MAX_POINT);
      if rx.Failed? then Failed
      else
        var ry := ReadBig(rx.rest, MAX_POINT);
        if ry.Failed? then Failed
        else
          var px := ReadBig(ry.rest, MAX_POINT);
          if px.Failed? then Failed
          else
            var py := ReadBig(px.rest, MAX_POINT);
            if py.Failed? then Failed
            else Parsed(Krp(k0.value, rx.value, ry.value, px.value, py.value), py.rest)
  }

  const NO_KRP := Krp(0, 0, 0, 0, 0)
  const NO_R := RContent([], NO_KRP)
  const NO_S := SContent(0, 0, [], 0, 0)

  function ReadR(s: Tokens, feedback: bool): Parsed<RContent> {
    var nonce := ReadBytes(s, MAX_POINT);
    if nonce.Failed? then Failed
    else if !feedback then Parsed(RContent(nonce.value, NO_KRP), nonce.rest)
    else
      var r := ReadKrp(nonce.rest);
      if r.Failed? then Failed else Parsed(RContent(nonce.value, r.value), r.rest)
  }

  function ReadKeys(s: Tokens, count: nat): Parsed<seq<Bytes>> {
    if count == 0 then Parsed([], s)
    else
      var first := ReadBytes(s, MAX_KEY);
      if first.Failed? then Failed
      else
        var more := ReadKeys(first.rest, count - 1);
        if more.Failed? then Failed else Parsed([first.value] + more.value, more.rest)
  }

  function ReadS(s: Tokens, feedback: bool): Parsed<SContent> {
    if |s| < 3 || !s[0].Hash? || !s[1].Tx? || s[1].whole || !s[2].VarUint? then Failed
    else
      var pks := ReadKeys(s[3..], s[2].n);
      if pks.Failed? then Failed
      else
        var e := ReadBig(pks.rest, MAX_BIG);
        if e.Failed? then Failed
        else if !feedback then Parsed(SContent(s[0].h, s[1].t, pks.value, e.value, 0), e.rest)
        else
          var share := ReadBig(e.rest, MAX_BIG);
          if share.Failed? then Failed
          else Parsed(SContent(s[0].h, s[1].t, pks.value, e.value, share.value), share.rest)
  }

  // ---- round trips of the contents -----------------------------------------------------------------

  function Number(n: nat, max: nat, rest: Tokens): Parsed<nat> {
    if |ToBytes(n)| <= max then Parsed(n, rest) else Failed
  }

  lemma BigRoundTrip(n: nat, max: nat, rest: Tokens)
    ensures ReadBig([Big(n)] + rest, max) == Number(n, max, rest)
  {
    BytesRoundTrip(n);
    assert ([Big(n)] + rest)[1..] == rest;
  }

  predicate KrpFits(r: Krp) {
    && |ToBytes(r.k0)| <= MAX_POINT && |ToBytes(r.rx)| <= MAX_POINT && |ToBytes(r.ry)| <= MAX_POINT
    && |ToBytes(r.px)| <= MAX_POINT && |ToBytes(r.py)| <= MAX_POINT
  }

  lemma KrpRoundTrip(r: Krp, rest: Tokens)
    ensures ReadKrp(WriteKrp(r) + rest) == if KrpFits(r) then Parsed(r, rest) else Failed
  {
    var t4 := [Big(r.py)] + rest;
    var t3 := [Big(r.px)] + t4;
    var t2 := [Big(r.ry)] + t3;
    var t1 := [Big(r.rx)] + t2;
    assert WriteKrp(r) + rest == [Big(r.k0)] + t1;
    BigRoundTrip(r.k0, MAX_POINT, t1);
    BigRoundTrip(r.rx, MAX_POINT, t2);
    BigRoundTrip(r.ry, MAX_POINT, t3);
    BigRoundTrip(r.px, MAX_POINT, t4);
    BigRoundTrip(r.py, MAX_POINT, rest);
  }

  predicate RFits(c: RContent, feedback: bool) {
    |c.nonce| <= MAX_POINT && (feedback ==> KrpFits(c.r))
  }

  function CarriedR(c: RContent, feedback: bool): RContent {
    if feedback then c else c.(r := NO_KRP)
  }

  lemma RRoundTrip(c: RContent, feedback: bool, rest: Tokens)
    ensures ReadR(WriteR(c, feedback) + rest, feedback)
               == if RFits(c, feedback) then Parsed(CarriedR(c, feedback), rest) else Failed
  {
    KrpRoundTrip(c.r, rest);
    var tail := (if feedback then WriteKrp(c.r) else []) + rest;
    assert WriteR(c, feedback) + rest == [VarBytes(c.nonce)] + tail;
    assert ([VarBytes(c.nonce)] + tail)[1..] == tail;
  }

  predicate KeysFit(pks: seq<Bytes>) {
    forall i | 0 <= i < |pks| :: |pks[i]| <= MAX_KEY
  }

  lemma {:induction false} KeysRoundTrip(pks: seq<Bytes>, rest: Tokens)
    ensures ReadKeys(WriteKeys(pks) + rest, |pks|) == if KeysFit(pks) then Parsed(pks, rest) else Failed
  {
    if pks == [] {
      assert [] + rest == rest;
    } else {
      var tail := WriteKeys(pks[1..]) + rest;
      KeysRoundTrip(pks[1..], rest);
      assert WriteKeys(pks) + rest == [VarBytes(pks[0])] + tail;
      assert ([VarBytes(pks[0])] + tail)[1..] == tail;
      assert [pks[0]] + pks[1..] == pks;
    }
  }

  predicate SFits(c: SContent, feedback: bool) {
    KeysFit(c.pks) && |ToBytes(c.e)| <= MAX_BIG && (feedback ==> |ToBytes(c.s)| <= MAX_BIG)
  }

  function CarriedS(c: SContent, feedback: bool): SContent {
    if feedback then c else c.(s := 0)
  }

  lemma SRoundTrip(c: SContent, feedback: bool, rest: Tokens)
    ensures ReadS(WriteS(c, feedback) + rest, feedback)
               == if SFits(c, feedback) then Parsed(CarriedS(c, feedback), rest) else Failed
  {
    var t2 := (if feedback then [Big(c.s)] else []) + rest;
    var t1 := [Big(c.e)] + t2;
    var s := WriteS(c, feedback) + rest;
    assert s == [Hash(c.nonceHash), Tx(c.tx, false), VarUint(|c.pks|)] + (WriteKeys(c.pks) + t1);
    assert s[3..] == WriteKeys(c.pks) + t1;
    KeysRoundTrip(c.pks, t1);
    BigRoundTrip(c.e, MAX_BIG, t2);
    BigRoundTrip(c.s, MAX_BIG, rest);
  }

  // ---- DistributedItem ---------------------------------------------------------------------------------

  const MULTISIG: Byte := 0x00
  const ILLEGAL: Byte := 0x01
  const SCHNORR_R: Byte := 0x02
  const SCHNORR_S: Byte := 0x03
  const ANSWER_MULTISIG: Byte := 0x10
  const ANSWER_ILLEGAL: Byte := 0x11
  const ANSWER_SCHNORR_R: Byte := 0x12
  const ANSWER_SCHNORR_S: Byte := 0x13

  datatype Item = Item(
    key: Bytes, programHash: nat, txType: Byte, kind: Byte,
    content: Option<nat>, r: RContent, s: SContent, redeemScript: Bytes, signedData: Bytes)

  /** Which parts a type tag carries. */
  predicate CarriesContent(kind: Byte) { kind == MULTISIG || kind == ANSWER_MULTISIG }
  predicate CarriesScript(kind: Byte) { CarriesContent(kind) || kind == ILLEGAL || kind == ANSWER_ILLEGAL }
  predicate CarriesR(kind: Byte) { kind == SCHNORR_R || kind == ANSWER_SCHNORR_R }
  predicate CarriesS(kind: Byte) { kind == SCHNORR_S || kind == ANSWER_SCHNORR_S }
  predicate CarriesSigned(kind: Byte) { CarriesScript(kind) || kind == ANSWER_SCHNORR_R || kind == ANSWER_SCHNORR_S }

  /** The writer of a transaction proposal needs the transaction. */
  predicate Writable(x: Item) { CarriesContent(x.kind) ==> x.content.Some? }

  function WriteItem(x: Item): Tokens
    requires Writable(x)
  {
    WriteHeader(x) + WriteBody(x)
  }

  function WriteHeader(x: Item): Tokens {
    [VarBytes(x.key), Hash(x.programHash), U8(x.txType), U8(x.kind)]
  }

  function WriteBody(x: Item): Tokens
    requires Writable(x)
  {
    if x.kind == MULTISIG || x.kind == ANSWER_MULTISIG then
      [Tx(x.content.value, true), VarBytes(x.redeemScript), VarBytes(x.signedData)]
    else if x.kind == ILLEGAL || x.kind == ANSWER_ILLEGAL then [VarBytes(x.redeemScript), VarBytes(x.signedData)]
    else if x.kind == SCHNORR_R then WriteR(x.r, false)
    else if x.kind == ANSWER_SCHNORR_R then WriteR(x.r, true) + [VarBytes(x.signedData)]
    else if x.kind == SCHNORR_S then WriteS(x.s, false)
    else if x.kind == ANSWER_SCHNORR_S then WriteS(x.s, true) + [VarBytes(x.signedData)]
    else []
  }

  function ReadItem(s: Tokens): Parsed<Item> {
    var key := ReadBytes(s, MAX_SENDER_KEY);
    if key.Failed? then Failed
    else
      var t := key.rest;
      if |t| < 3 || !t[0].Hash? || !t[1].U8? || !t[2].U8? then Failed
      else ReadBody(Blank(key.value, t[0].h, t[1].b, t[2].b), t[3..])
  }

  function Blank(key: Bytes, programHash: nat, txType: Byte, kind: Byte): Item {
    Item(key, programHash, txType, kind, None, NO_R, NO_S, [], [])
  }

  /** Fill in the fields that the type tag carries. What does not start like a known
      transaction ends the reader without an error and without content; a transaction
      that breaks off is an error. */
  function ReadBody(x: Item, s: Tokens): Parsed<Item> {
    if x.kind == MULTISIG || x.kind == ANSWER_MULTISIG then
      if s == [] || !s[0].Tx? then Parsed(x, s)
      else if !s[0].whole then Failed
      else ReadScripts(x.(content := Some(s[0].t)), s[1..])
    else if x.kind == ILLEGAL || x.kind == ANSWER_ILLEGAL then ReadScripts(x, s)
    else if x.kind == SCHNORR_R || x.kind == ANSWER_SCHNORR_R then
      var r := ReadR(s, x.kind == ANSWER_SCHNORR_R);
      if r.Failed? then Failed
      else if x.kind == SCHNORR_R then Parsed(x.(r := r.value), r.rest)
      else ReadSigned(x.(r := r.value), r.rest)
    else if x.kind == SCHNORR_S || x.kind == ANSWER_SCHNORR_S then
      var c := ReadS(s, x.kind == ANSWER_SCHNORR_S);
      if c.Failed? then Failed
      else if x.kind == SCHNORR_S then Parsed(x.(s := c.value), c.rest)
      else ReadSigned(x.(s := c.value), c.rest)
    else Parsed(x, s)
  }

  function ReadScripts(x: Item, s: Tokens): Parsed<Item> {
    var script := ReadBytes(s, MAX_REDEEM_SCRIPT);
    if script.Failed? then Failed else ReadSigned(x.(redeemScript := script.value), script.rest)
  }

  function ReadSigned(x: Item, s: Tokens): Parsed<Item> {
    var signed := ReadBytes(s, MAX_SIGNED_DATA);
    if signed.Failed? then Failed else Parsed(x.(signedData := signed.value), signed.rest)
  }

  /** The item with the fields its type tag does not carry left at their defaults. */
  function Carried(x: Item): Item {
    Item(x.key, x.programHash, x.txType, x.kind,
         if CarriesContent(x.kind) then x.content else None,
         if CarriesR(x.kind) then CarriedR(x.r, x.kind == ANSWER_SCHNORR_R) else NO_R,
         if CarriesS(x.kind) then CarriedS(x.s, x.kind == ANSWER_SCHNORR_S) else NO_S,
         if CarriesScript(x.kind) then x.redeemScript else [],
         if CarriesSigned(x.kind) then x.signedData else [])
  }

  predicate Fits(x: Item) {
    && |x.key| <= MAX_SENDER_KEY
    && (CarriesScript(x.kind) ==> |x.redeemScript| <= MAX_REDEEM_SCRIPT)
    && (CarriesSigned(x.kind) ==> |x.signedData| <= MAX_SIGNED_DATA)
    && (CarriesR(x.kind) ==> RFits(x.r, x.kind == ANSWER_SCHNORR_R))
    && (CarriesS(x.kind) ==> SFits(x.s, x.kind == ANSWER_SCHNORR_S))
  }

  lemma SignedRoundTrip(x: Item, data: Bytes, rest: Tokens)
    ensures ReadSigned(x, [VarBytes(data)] + rest)
              == if |data| <= MAX_SIGNED_DATA then Parsed(x.(signedData := data), rest) else Failed
  {
    assert ([VarBytes(data)] + rest)[1..] == rest;
  }

  lemma ScriptsRoundTrip(x: Item, script: Bytes, data: Bytes, rest: Tokens)
    ensures ReadScripts(x, [VarBytes(script), VarBytes(data)] + rest)
              == if |script| <= MAX_REDEEM_SCRIPT && |data| <= MAX_SIGNED_DATA
                 then Parsed(x.(redeemScript := script, signedData := data), rest) else Failed
  {
    assert ([VarBytes(script), VarBytes(data)] + rest)[1..] == [VarBytes(data)] + rest;
    SignedRoundTrip(x.(redeemScript := script), data, rest);
  }

  // One lemma for each kind of body, from the fields that are already read.

  lemma ContentRoundTrip(x: Item, t: nat, script: Bytes, data: Bytes, rest: Tokens)
    requires CarriesContent(x.kind)
    ensures ReadBody(x, [Tx(t, true), VarBytes(script), VarBytes(data)] + rest)
              == if |script| <= MAX_REDEEM_SCRIPT && |data| <= MAX_SIGNED_DATA
                 then Parsed(x.(content := Some(t), redeemScript := script, signedData := data), rest) else Failed
  {
    var s := [Tx(t, true), VarBytes(script), VarBytes(data)] + rest;
    assert s[1..] == [VarBytes(script), VarBytes(data)] + rest;
    ScriptsRoundTrip(x.(content := Some(t)), script, data, rest);
  }

  lemma RRequestRoundTrip(x: Item, c: RContent, rest: Tokens)
    requires x.kind == SCHNORR_R
    ensures ReadBody(x, WriteR(c, false) + rest)
              == if RFits(c, false) then Parsed(x.(r := CarriedR(c, false)), rest) else Failed
  {
    RRoundTrip(c, false, rest);
  }

  lemma RAnswerRoundTrip(x: Item, c: RContent, data: Bytes, rest: Tokens)
    requires x.kind == ANSWER_SCHNORR_R
    ensures ReadBody(x, WriteR(c, true) + [VarBytes(data)] + rest)
              == if RFits(c, true) && |data| <= MAX_SIGNED_DATA then Parsed(x.(r := c, signedData := data), rest)
                 else Failed
  {
    var tail := [VarBytes(data)] + rest;
    assert WriteR(c, true) + [VarBytes(data)] + rest == WriteR(c, true) + tail;
    RRoundTrip(c, true, tail);
    SignedRoundTrip(x.(r := c), data, rest);
  }

  lemma SRequestRoundTrip(x: Item, c: SContent, rest: Tokens)
    requires x.kind == SCHNORR_S
    ensures ReadBody(x, WriteS(c, false) + rest)
              == if SFits(c, false) then Parsed(x.(s := CarriedS(c, false)), rest) else Failed
  {
    SRoundTrip(c, false, rest);
  }

  lemma SAnswerRoundTrip(x: Item, c: SContent, data: Bytes, rest: Tokens)
    requires x.kind == ANSWER_SCHNORR_S
    ensures ReadBody(x, WriteS(c, true) + [VarBytes(data)] + rest)
              == if SFits(c, true) && |data| <= MAX_SIGNED_DATA then Parsed(x.(s := c, signedData := data), rest)
                 else Failed
  {
    var tail := [VarBytes(data)] + rest;
    assert WriteS(c, true) + [VarBytes(data)] + rest == WriteS(c, true) + tail;
    SRoundTrip(c, true, tail);
    SignedRoundTrip(x.(s := c), data, rest);
  }

  /** Reading a body fills in what the tag carries, within the limits. */
  lemma BodyRoundTrip(x: Item, rest: Tokens)
    requires Writable(x) && |x.key| <= MAX_SENDER_KEY
    ensures ReadBody(Blank(x.key, x.programHash, x.txType, x.kind), WriteBody(x) + rest)
              == if Fits(x) then Parsed(Carried(x), rest) else Failed
  {
    var blank := Blank(x.key, x.programHash, x.txType, x.kind);
    if CarriesContent(x.kind) {
      ContentRoundTrip(blank, x.content.value, x.redeemScript, x.signedData, rest);
    } else if CarriesScript(x.kind) {
      ScriptsRoundTrip(blank, x.redeemScript, x.signedData, rest);
    } else if x.kind == SCHNORR_R {
      RRequestRoundTrip(blank, x.r, rest);
    } else if x.kind == ANSWER_SCHNORR_R {
      RAnswerRoundTrip(blank, x.r, x.signedData, rest);
    } else if x.kind == SCHNORR_S {
      SRequestRoundTrip(blank, x.s, rest);
    } else if x.kind == ANSWER_SCHNORR_S {
      SAnswerRoundTrip(blank, x.s, x.signedData, rest);
    } else {
      assert [] + rest == rest;
    }
  }

  lemma {:induction false} KeysLayout(pks: seq<Bytes>)
    ensures |WriteKeys(pks)| == |pks| && forall i | 0 <= i < |pks| :: WriteKeys(pks)[i] == VarBytes(pks[i])
  {
    if pks != [] {
      KeysLayout(pks[1..]);
    }
  }

  /** What is on the wire, item by item: the sender, the two types, and then, by the tag,
      a transaction or evidence with its script and signatures, or one of the two Schnorr
      contents, where the answers carry more than the requests and a signature. */
  lemma ItemLayout(x: Item)
    requires Writable(x)
    ensures WriteItem(x)[..4] == [VarBytes(x.key), Hash(x.programHash), U8(x.txType), U8(x.kind)]
    ensures var body, c, n := WriteItem(x)[4..], x.s, |x.s.pks|;
            && (x.kind in {0x00, 0x10} ==>
                  body == [Tx(x.content.value, true), VarBytes(x.redeemScript), VarBytes(x.signedData)])
            && (x.kind in {0x01, 0x11} ==> body == [VarBytes(x.redeemScript), VarBytes(x.signedData)])
            && (x.kind == 0x02 ==> body == [VarBytes(x.r.nonce)])
            && (x.kind == 0x12 ==>
                  body == [VarBytes(x.r.nonce), Big(x.r.r.k0), Big(x.r.r.rx), Big(x.r.r.ry), Big(x.r.r.px), Big(x.r.r.py),
                           VarBytes(x.signedData)])
            && (x.kind in {0x03, 0x13} ==>
                  && |body| >= n + 4 && body[..3] == [Hash(c.nonceHash), Tx(c.tx, false), VarUint(n)]
                  && (forall i | 0 <= i < n :: body[3 + i] == VarBytes(c.pks[i])))
            && (x.kind == 0x03 ==> body[n + 3..] == [Big(c.e)])
            && (x.kind == 0x13 ==> body[n + 3..] == [Big(c.e), Big(c.s), VarBytes(x.signedData)])
            && (x.kind !in {0x00, 0x01, 0x02, 0x03, 0x10, 0x11, 0x12, 0x13} ==> body == [])
  {
    assert WriteItem(x)[4..] == WriteBody(x);
    KeysLayout(x.s.pks);
    if x.kind == 0x03 {
      SLayout(x.s, false, [], WriteBody(x));
    } else if x.kind == 0x13 {
      SLayout(x.s, true, [VarBytes(x.signedData)], WriteBody(x));
    }
  }

  lemma SLayout(c: SContent, feedback: bool, rest: Tokens, body: Tokens)
    requires body == WriteS(c, feedback) + rest
    ensures |WriteKeys(c.pks)| == |c.pks| && |body| >= |c.pks| + 4
    ensures body[..3] == [Hash(c.nonceHash), Tx(c.tx, false), VarUint(|c.pks|)]
    ensures forall i | 0 <= i < |c.pks| :: body[3 + i] == VarBytes(c.pks[i])
    ensures body[|c.pks| + 3..] == (if feedback then [Big(c.e), Big(c.s)] else [Big(c.e)]) + rest
  {
    KeysLayout(c.pks);
    var tail := [Big(c.e)] + (if feedback then [Big(c.s)] else []) + rest;
    assert body == [Hash(c.nonceHash), Tx(c.tx, false), VarUint(|c.pks|)] + WriteKeys(c.pks) + tail;
  }

  /** The limits of the reader, in bytes; for a big integer they are those of its bytes. */
  lemma Limits(x: Item)
    ensures Fits(x) <==>
              && |x.key| <= 35
              && (x.kind in {0x00, 0x01, 0x10, 0x11} ==> |x.redeemScript| <= 10000)
              && (x.kind in {0x00, 0x01, 0x10, 0x11, 0x12, 0x13} ==> |x.signedData| <= 130)
              && (x.kind in {0x02, 0x12} ==> |x.r.nonce| <= 64)
              && (x.kind == 0x12 ==>
                    forall n | n in [x.r.r.k0, x.r.r.rx, x.r.r.ry, x.r.r.px, x.r.r.py] :: |ToBytes(n)| <= 64)
              && (x.kind in {0x03, 0x13} ==> (forall k | k in x.s.pks :: |k| <= 33) && |ToBytes(x.s.e)| <= 65)
              && (x.kind == 0x13 ==> |ToBytes(x.s.s)| <= 65)
  {
    var points := [x.r.r.k0, x.r.r.rx, x.r.r.ry, x.r.r.px, x.r.r.py];
    assert points[0] in points && points[1] in points && points[2] in points && points[3] in points && points[4] in points;
    assert forall i | 0 <= i < |x.s.pks| :: x.s.pks[i] in x.s.pks;
  }

  /** Round trip of a message, for every type tag including unknown ones: reading what
      was written restores exactly the fields the tag carries and leaves the rest of
      the stream untouched, if the carried fields fit the reader's limits, and fails
      if they do not. */
  lemma ItemRoundTrip(x: Item, rest: Tokens)
    requires Writable(x)
    ensures ReadItem(WriteItem(x) + rest) == if Fits(x) then Parsed(Carried(x), rest) else Failed
  {
    var s := WriteItem(x) + rest;
    assert s == WriteHeader(x) + (WriteBody(x) + rest);
    var t := s[1..];
    assert t[0] == Hash(x.programHash) && t[1] == U8(x.txType) && t[2] == U8(x.kind) && t[3..] == WriteBody(x) + rest;
    if |x.key| <= MAX_SENDER_KEY {
      BodyRoundTrip(x, rest);
    }
  }

  /** A proposal whose content does not start like a transaction is read without an error,
      without content, script or signatures; one whose transaction breaks off is not. */
  lemma NoTransaction(x: Item, rest: Tokens)
    requires x.kind in {0x00, 0x10} && |x.key| <= 35
    requires rest == [] || !rest[0].Tx? || !rest[0].whole
    ensures var r := ReadItem(WriteHeader(x) + rest);
            if rest != [] && rest[0].Tx? then r.Failed?
            else r.Parsed? && r.rest == rest && r.value.content.None?
                 && r.value.redeemScript == r.value.signedData == []
  {
    var s := WriteHeader(x) + rest;
    assert s[1..][0] == Hash(x.programHash) && s[1..][1] == U8(x.txType) && s[1..][2] == U8(x.kind) && s[1..][3..] == rest;
  }

  // ---- withdrawals in the pending table ------------------------------------------------------------------

  datatype Asset = Asset(target: Bytes, amount: int, crossChain: int, data: Bytes)
  datatype WithdrawTx = WithdrawTx(id: nat, assets: seq<Asset>)

  function WriteAsset(a: Asset): Tokens {
    [VarBytes(a.target), Fixed(a.amount), Fixed(a.crossChain), VarBytes(a.data)]
  }

  function WriteAssets(assets: seq<Asset>): Tokens {
    if assets == [] then [] else WriteAsset(assets[0]) + WriteAssets(assets[1..])
  }

  function WriteWithdraw(t: WithdrawTx): Tokens {
    [Hash(t.id), VarUint(|t.assets|)] + WriteAssets(t.assets)
  }

  /** A stored withdrawal: its hash and the number of assets, and four items for each. */
  lemma WithdrawLayout(t: WithdrawTx)
    ensures WriteWithdraw(t)[..2] == [Hash(t.id), VarUint(|t.assets|)] && |WriteWithdraw(t)| == 2 + 4 * |t.assets|
    ensures forall i | 0 <= i < |t.assets| :: StandsAt(WriteWithdraw(t), 2 + 4 * i, t.assets[i])
  {
    AssetsLayout(t.assets);
    assert WriteWithdraw(t)[2..] == WriteAssets(t.assets);
    forall i | 0 <= i < |t.assets| ensures StandsAt(WriteWithdraw(t), 2 + 4 * i, t.assets[i]) {
      assert StandsAt(WriteAssets(t.assets), 4 * i, t.assets[i]);
      assert WriteWithdraw(t)[2 + 4 * i..6 + 4 * i] == WriteAssets(t.assets)[4 * i..4 * i + 4];
    }
  }

  predicate StandsAt(s: Tokens, at: nat, a: Asset) {
    at + 4 <= |s| && s[at..at + 4] == [VarBytes(a.target), Fixed(a.amount), Fixed(a.crossChain), VarBytes(a.data)]
  }

  lemma {:induction false} AssetsLayout(assets: seq<Asset>)
    ensures |WriteAssets(assets)| == 4 * |assets|
    ensures forall i | 0 <= i < |assets| :: StandsAt(WriteAssets(assets), 4 * i, assets[i])
  {
    if assets != [] {
      AssetsLayout(assets[1..]);
      var all, more := WriteAssets(assets), WriteAssets(assets[1..]);
      forall i | 0 <= i < |assets| ensures StandsAt(all, 4 * i, assets[i]) {
        if i > 0 {
          assert StandsAt(more, 4 * (i - 1), assets[1..][i - 1]);
          assert all[4 * i..4 * i + 4] == more[4 * (i - 1)..4 * (i - 1) + 4];
        }
      }
    }
  }

  /** Addresses are read without a limit, the data of a target is not. */
  function ReadAsset(s: Tokens): Parsed<Asset> {
    if |s| < 4 || !s[0].VarBytes? || !s[1].Fixed? || !s[2].Fixed? then Failed
    else
      var data := ReadBytes(s[3..], MAX_TARGET_DATA);
      if data.Failed? then Failed else Parsed(Asset(s[0].bytes, s[1].v, s[2].v, data.value), data.rest)
  }

  function ReadAssets(s: Tokens, count: nat): Parsed<seq<Asset>> {
    if count == 0 then Parsed([], s)
    else
      var first := ReadAsset(s);
      if first.Failed? then Failed
      else
        var more := ReadAssets(first.rest, count - 1);
        if more.Failed? then Failed else Parsed([first.value] + more.value, more.rest)
  }

  function ReadWithdraw(s: Tokens): Parsed<WithdrawTx> {
    if |s| < 2 || !s[0].Hash? || !s[1].VarUint? then Failed
    else
      var assets := ReadAssets(s[2..], s[1].n);
      if assets.Failed? then Failed else Parsed(WithdrawTx(s[0].h, assets.value), assets.rest)
  }

  predicate DataFits(assets: seq<Asset>) {
    forall i | 0 <= i < |assets| :: |assets[i].data| <= 1024
  }

  lemma AssetRoundTrip(a: Asset, rest: Tokens)
    ensures ReadAsset(WriteAsset(a) + rest) == if |a.data| <= MAX_TARGET_DATA then Parsed(a, rest) else Failed
  {
    assert (WriteAsset(a) + rest)[3..] == [VarBytes(a.data)] + rest;
    assert ([VarBytes(a.data)] + rest)[1..] == rest;
  }

  lemma {:induction false} AssetsRoundTrip(assets: seq<Asset>, rest: Tokens)
    ensures ReadAssets(WriteAssets(assets) + rest, |assets|) == if DataFits(assets) then Parsed(assets, rest) else Failed
  {
    if assets == [] {
      assert [] + rest == rest;
    } else {
      var a, more := assets[0], assets[1..];
      AssetsRoundTrip(more, rest);
      OneMoreAsset(a, more, WriteAssets(more), rest);
      assert assets == [a] + more;
    }
  }

  lemma OneMoreAsset(a: Asset, more: seq<Asset>, tail: Tokens, rest: Tokens)
    requires ReadAssets(tail + rest, |more|) == if DataFits(more) then Parsed(more, rest) else Failed
    ensures ReadAssets(WriteAsset(a) + tail + rest, |more| + 1)
              == if DataFits([a] + more) then Parsed([a] + more, rest) else Failed
  {
    assert WriteAsset(a) + tail + rest == WriteAsset(a) + (tail + rest);
    AssetRoundTrip(a, tail + rest);
    DataFitsCons(a, more);
  }

  lemma DataFitsCons(a: Asset, more: seq<Asset>)
    ensures DataFits([a] + more) <==> |a.data| <= MAX_TARGET_DATA && DataFits(more)
  {
    var all := [a] + more;
    assert all[0] == a && forall i | 0 <= i < |more| :: all[i + 1] == more[i];
    assert forall i | 0 < i < |all| :: all[i] == more[i - 1];
  }

  /** Deserialize takes a stored withdrawal exactly if no target has more than 1024
      bytes of data. */
  lemma WithdrawRoundTrip(t: WithdrawTx, rest: Tokens)
    ensures ReadWithdraw(WriteWithdraw(t) + rest) == if DataFits(t.assets) then Parsed(t, rest) else Failed
  {
    AssetsRoundTrip(t.assets, rest);
    assert (WriteWithdraw(t) + rest)[2..] == WriteAssets(t.assets) + rest;
  }

  // ---- what a failing reader has filled in ----------------------------------------------------------

  /** The assets read before the first that fails. */
  function ReadSome(s: Tokens, count: nat): seq<Asset> {
    if count == 0 then []
    else
      var first := ReadAsset(s);
      if first.Failed? then [] else [first.value] + ReadSome(first.rest, count - 1)
  }

  /** The record that Deserialize leaves, with or without an error. The reader of the
      pending table (GetSideChainTxsFromHashes) does not look at the error. */
  function Salvaged(s: Tokens): WithdrawTx {
    if s == [] || !s[0].Hash? then WithdrawTx(0, [])
    else if |s| < 2 || !s[1].VarUint? then WithdrawTx(s[0].h, [])
    else WithdrawTx(s[0].h, ReadSome(s[2..], s[1].n))
  }

  /** The assets in front of the first whose data is too long. */
  function Leading(assets: seq<Asset>): seq<Asset> {
    if assets == [] || |assets[0].data| > MAX_TARGET_DATA then [] else [assets[0]] + Leading(assets[1..])
  }

  lemma {:induction false} LeadingAssets(assets: seq<Asset>, rest: Tokens)
    ensures ReadSome(WriteAssets(assets) + rest, |assets|) == Leading(assets)
    ensures Leading(assets) == assets <==> DataFits(assets)
  {
    if assets != [] {
      var a, more := assets[0], assets[1..];
      LeadingAssets(more, rest);
      SomeMoreAsset(a, |more|, WriteAssets(more), rest);
      assert assets == [a] + more;
      DataFitsCons(a, more);
    }
  }

  lemma SomeMoreAsset(a: Asset, count: nat, tail: Tokens, rest: Tokens)
    ensures ReadSome(WriteAsset(a) + tail + rest, count + 1)
              == if |a.data| <= MAX_TARGET_DATA then [a] + ReadSome(tail + rest, count) else []
  {
    assert WriteAsset(a) + tail + rest == WriteAsset(a) + (tail + rest);
    AssetRoundTrip(a, tail + rest);
  }

  /** A row of the pending table reads as the withdrawal with the assets in front of the
      first that is too long: whole exactly if all of them fit, and never as an error. */
  lemma TableRowRoundTrip(t: WithdrawTx, rest: Tokens)
    ensures Salvaged(WriteWithdraw(t) + rest) == WithdrawTx(t.id, Leading(t.assets))
    ensures Salvaged(WriteWithdraw(t) + rest) == t <==> DataFits(t.assets)
  {
    LeadingAssets(t.assets, rest);
    assert (WriteWithdraw(t) + rest)[2..] == WriteAssets(t.assets) + rest;
  }
}
