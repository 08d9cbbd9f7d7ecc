/**
 * The Paillier endpoints of the server: the key pair created at start-up,
 * the in-memory store of submitted ciphertexts, and the routes that hand
 * out the public key, accept a submission, aggregate the store
 * homomorphically, decrypt the aggregate and clear the store. Responses
 * are a status and the JSON body the route sends.
 */
module ApiServer {
  import opened Wrappers
  import opened JsText
  import opened JsValues
  import Codec
  import opened Aggregation

  datatype Response = Response(status: nat, body: JsValue)

  /** `res.status(status).json({ error: message })`. */
  function ErrorReply(status: nat, message: string): Response {
    Response(status, JObj([("error", JStr(message))]))
  }

  /** The public key: the modulus `n` and the generator `g`. */
  datatype PublicKey = PublicKey(n: nat, g: nat)

  /** The private key, of which the server only uses `decrypt`. */
  datatype PrivateKey = PrivateKey(decrypt: nat -> nat)

  /** One stored submission: `{ id, ciphertext, meta }` with the body's values as sent. */
  datatype Submission = Submission(id: string, ciphertext: JsValue, meta: JsValue)

  /** `"sub_" + Date.now() + "_" + Math.floor(Math.random() * 10000)`. */
  function SubmissionId(now: nat, random: real): (id: string)
    requires 0.0 <= random < 1.0
    ensures |id| > 4 && id[..4] == "sub_"
  {
    "sub_" + NatToString(now) + "_" + NatToString((random * 10000.0).Floor)
  }

  /** `base64ToBigint(item.ciphertext)`: `Buffer.from` throws on anything but a string, `BigInt("0x")` on no bytes. */
  function ReadCiphertext(v: JsValue): (r: Option<nat>)
    ensures v.JStr? ==> r == Codec.Base64ToBigint(v.s)
    ensures !v.JStr? ==> r.None?
  {
    match v
    case JStr(s) => Codec.Base64ToBigint(s)
    case _ => None
  }

  /** `f` applied to each element, or none as soon as one application gives none. */
  function ReadAll<T>(xs: seq<T>, f: T -> Option<nat>): (r: Option<seq<nat>>)
    ensures r.Some? ==> |r.value| == |xs|
  {
    if xs == [] then Some([])
    else match ReadAll(xs[..|xs| - 1], f)
      case None => None
      case Some(vs) => match f(xs[|xs| - 1])
        case None => None
        case Some(v) => Some(vs + [v])
  }

  function ReadItem(item: Submission): Option<nat> {
    ReadCiphertext(item.ciphertext)
  }

  /** The stored ciphertexts as integers, or none if one of them does not decode. */
  function DecodeAll(items: seq<Submission>): Option<seq<nat>> {
    ReadAll(items, ReadItem)
  }

  /** The product loop of `/api/aggregate` and `/api/decrypt`: none when it throws, on a ciphertext or on a missing or zero `n2`. */
  function StoreProduct(items: seq<Submission>, n2: Option<nat>): (r: Option<nat>)
  {
    match DecodeAll(items)
    case None => None
    case Some(vs) =>
      if items == [] then Some(1)
      else if n2.None? || n2.value == 0 then None
      else Some(ProdMod(vs, n2.value))
  }

  /** The product is defined exactly when every ciphertext decodes and there is a nonzero `n2` to reduce by; it is then below `n2`, and 1 for an empty store. */
  lemma StoreProductDefined(items: seq<Submission>, n2: Option<nat>)
    ensures StoreProduct(items, n2).Some? <==> DecodeAll(items).Some? && (items == [] || (n2.Some? && n2.value > 0))
    ensures StoreProduct(items, n2).Some? && items != [] ==> n2.Some? && StoreProduct(items, n2).value < n2.value
    ensures items == [] ==> StoreProduct(items, n2) == Some(1)
  {
  }

  /** The body of a successful `/api/aggregate`. */
  function AggregateBody(aggregate: JsValue, cid: Option<string>, count: nat): JsValue {
    var cidField := if cid.Some? then [("aggregateCid", JStr(cid.value))] else [];
    JObj([("aggregate", aggregate)] + cidField + [("count", JNum(count as real))])
  }

  /** What `/api/aggregate` answers. */
  function AggregateReply(publicKey: Option<PublicKey>, n2: Option<nat>, items: seq<Submission>, now: nat): (r: Response)
    ensures r.status == 200 || r.status == 500
    ensures r.status == 200 <==> publicKey.Some? && (items == [] || StoreProduct(items, n2).Some?)
  {
    if publicKey.None? then ErrorReply(500, "keys not ready")
    else if items == [] then Response(200, AggregateBody(JNull, None, 0))
    else match StoreProduct(items, n2)
      case None => ErrorReply(500, "internal")
      case Some(p) =>
        Response(200, AggregateBody(JStr(Codec.BigintToBase64(p)), Some("agg_demo_" + NatToString(now)), |items|))
  }

  /** What `/api/decrypt` answers. */
  function DecryptReply(privateKey: Option<PrivateKey>, n2: Option<nat>, items: seq<Submission>): (r: Response)
    ensures r.status == 200 <==> privateKey.Some? && items != [] && StoreProduct(items, n2).Some?
    ensures r.status == 400 <==> privateKey.Some? && items == []
    ensures r.status != 200 && r.status != 400 ==> r.status == 500
  {
    if privateKey.None? then ErrorReply(500, "keys not ready")
    else if items == [] then ErrorReply(400, "no ciphertexts")
    else match StoreProduct(items, n2)
      case None => ErrorReply(500, "internal")
      case Some(p) =>
        Response(200, JObj([("plaintext", JStr(NatToString(privateKey.value.decrypt(p)))),
                            ("scale", JNum(100.0)),
                            ("count", JNum(|items| as real))]))
  }

  /**
   * `/api/aggregate` on an empty store answers `{aggregate: null, count: 0}`;
   * any other success carries the base64 of the store product, the demo
   * CID stamped with `now`, and the store length as `count`.
   */
  lemma {:induction false} AggregateReplyBody(publicKey: Option<PublicKey>, n2: Option<nat>, items: seq<Submission>, now: nat)
    ensures publicKey.Some? && items == [] ==>
      AggregateReply(publicKey, n2, items, now) == Response(200, JObj([("aggregate", JNull), ("count", JNum(0.0))]))
    ensures AggregateReply(publicKey, n2, items, now).status == 200 ==>
      Get(AggregateReply(publicKey, n2, items, now).body, "count") == JNum(|items| as real)
    ensures AggregateReply(publicKey, n2, items, now).status == 200 && items != [] ==>
      && StoreProduct(items, n2).Some?
      && Get(AggregateReply(publicKey, n2, items, now).body, "aggregate") == JStr(Codec.BigintToBase64(StoreProduct(items, n2).value))
      && Get(AggregateReply(publicKey, n2, items, now).body, "aggregateCid") == JStr("agg_demo_" + NatToString(now))
  {
    if publicKey.Some? && items == [] {
      assert [("aggregate", JNull)] + [] + [("count", JNum(0.0))] == [("aggregate", JNull), ("count", JNum(0.0))];
      TwoFieldsReadBack("aggregate", JNull, "count", JNum(0.0));
    } else if publicKey.Some? && StoreProduct(items, n2).Some? {
      var text := Codec.BigintToBase64(StoreProduct(items, n2).value);
      var cid := "agg_demo_" + NatToString(now);
      assert [("aggregate", JStr(text))] + [("aggregateCid", JStr(cid))] + [("count", JNum(|items| as real))]
        == [("aggregate", JStr(text)), ("aggregateCid", JStr(cid)), ("count", JNum(|items| as real))];
      ThreeFieldsReadBack("aggregate", JStr(text), "aggregateCid", JStr(cid), "count", JNum(|items| as real));
    }
  }

  /** Every successful `/api/decrypt` answers the decrypted store product in decimal, `scale: 100` and the store length as `count`. */
  lemma {:induction false} DecryptReplyBody(privateKey: Option<PrivateKey>, n2: Option<nat>, items: seq<Submission>)
    ensures DecryptReply(privateKey, n2, items).status == 200 ==>
      && privateKey.Some? && StoreProduct(items, n2).Some?
      && Get(DecryptReply(privateKey, n2, items).body, "plaintext") == JStr(NatToString(privateKey.value.decrypt(StoreProduct(items, n2).value)))
      && Get(DecryptReply(privateKey, n2, items).body, "scale") == JNum(100.0)
      && Get(DecryptReply(privateKey, n2, items).body, "count") == JNum(|items| as real)
  {
    if DecryptReply(privateKey, n2, items).status == 200 {
      var text := NatToString(privateKey.value.decrypt(StoreProduct(items, n2).value));
      ThreeFieldsReadBack("plaintext", JStr(text), "scale", JNum(100.0), "count", JNum(|items| as real));
    }
  }

  const OkBody := JObj([("ok", JBool(true))])

  /** `let prod = 1n; for (const item of items) { prod = (prod * base64ToBigint(item.ciphertext)) % n2; }`, none where it throws. */
  method MultiplyAll(items: seq<Submission>, n2: Option<nat>) returns (prod: Option<nat>)
    ensures prod == StoreProduct(items, n2)
  {
    var p: nat := 1;
    ghost var vs: seq<nat> := [];
    var i := 0;
    while i < |items|
      invariant 0 <= i <= |items|
      invariant DecodeAll(items[..i]) == Some(vs)
      invariant i > 0 ==> n2.Some? && n2.value > 0 && p == ProdMod(vs, n2.value)
      invariant i == 0 ==> p == 1
    {
      var bi := ReadCiphertext(items[i].ciphertext);
      if bi.None? {
        MultiplyFails(items, n2, i, vs);
        return None;
      }
      if n2.None? || n2.value == 0 {
        StoreProductNoModulus(items, n2);
        return None;
      }
      MultiplyStep(items, i, vs, bi.value, n2.value, p);
      p := MulMod(p, bi.value, n2.value);
      vs := vs + [bi.value];
      i := i + 1;
    }
    MultiplyDone(items, n2, vs, p);
    prod := Some(p);
  }

  /** After the last ciphertext the running product is the store's product. */
  lemma {:induction false} MultiplyDone(items: seq<Submission>, n2: Option<nat>, vs: seq<nat>, p: nat)
    requires DecodeAll(items[..|items|]) == Some(vs)
    requires items != [] ==> n2.Some? && n2.value > 0 && p == ProdMod(vs, n2.value)
    requires items == [] ==> p == 1
    ensures StoreProduct(items, n2) == Some(p)
  {
    assert items[..|items|] == items;
    if items != [] {
      StoreProductValue(items, n2.value, vs);
    }
  }

  class Server {
    var publicKey: Option<PublicKey>
    var privateKey: Option<PrivateKey>
    var n2: Option<nat>
    var ciphertexts: seq<Submission>

    /** The keys are set together, and `n2` is the square of the public modulus. */
    ghost predicate Valid()
      reads this
    {
      (publicKey.Some? <==> privateKey.Some?)
      && n2 == (if publicKey.Some? then Some(publicKey.value.n * publicKey.value.n) else None)
    }

    /** The state before `initKeys` has run. */
    constructor()
      ensures Valid()
      ensures publicKey.None? && privateKey.None? && ciphertexts == []
    {
      publicKey := None;
      privateKey := None;
      n2 := None;
      ciphertexts := [];
    }

    /** `initKeys`, with the generated key pair as input. */
    method InitKeys(pk: PublicKey, sk: PrivateKey)
      modifies this`publicKey, this`privateKey, this`n2
      ensures Valid()
      ensures publicKey == Some(pk) && privateKey.Some? && privateKey.value.decrypt == sk.decrypt
    {
      publicKey := Some(pk);
      privateKey := Some(sk);
      n2 := Some(pk.n * pk.n);
    }

    /** `GET /api/paillier/pub`. */
    function PublicKeyRoute(): (r: Response)
      reads this
      ensures publicKey.None? ==> r == ErrorReply(500, "keys not ready")
      ensures publicKey.Some? ==>
        && r.status == 200 && r.body.JObj?
        && r.body.fields == [("n", JStr(NatToString(publicKey.value.n))), ("g", JStr(NatToString(publicKey.value.g)))]
    {
      match publicKey
      case None => ErrorReply(500, "keys not ready")
      case Some(pk) => Response(200, JObj([("n", JStr(NatToString(pk.n))), ("g", JStr(NatToString(pk.g)))]))
    }

    /** `POST /api/submit` with the body's `ciphertext` and `meta`; `now` and `random` stand for `Date.now()` and `Math.random()`. */
    method Submit(ciphertext: JsValue, meta: JsValue, now: nat, random: real) returns (r: Response)
      requires Valid() && 0.0 <= random < 1.0
      modifies this`ciphertexts
      ensures Valid()
      ensures !Truthy(ciphertext) ==> r == ErrorReply(400, "missing ciphertext") && ciphertexts == old(ciphertexts)
      ensures Truthy(ciphertext) ==>
        var id := SubmissionId(now, random);
        && ciphertexts == old(ciphertexts) + [Submission(id, ciphertext, if Truthy(meta) then meta else JObj([]))]
        && r == Response(200, JObj([("ok", JBool(true)), ("id", JStr(id))]))
    {
      if !Truthy(ciphertext) {
        return ErrorReply(400, "missing ciphertext");
      }
      var id := "sub_" + NatToString(now) + "_" + NatToString((random * 10000.0).Floor);
      var stored := if Truthy(meta) then meta else JObj([]);
      ciphertexts := ciphertexts + [Submission(id, ciphertext, stored)];
      r := Response(200, JObj([("ok", JBool(true)), ("id", JStr(id))]));
    }

    /** `POST /api/clear`. */
    method Clear() returns (r: Response)
      requires Valid()
      modifies this`ciphertexts
      ensures Valid()
      ensures ciphertexts == [] && r == Response(200, OkBody)
    {
      ciphertexts := [];
      r := Response(200, OkBody);
    }

    /** `GET /api/aggregate`; `now` stands for `Date.now()`. */
    method Aggregate(now: nat) returns (r: Response)
      requires Valid()
      ensures r == AggregateReply(publicKey, n2, ciphertexts, now)
      ensures publicKey.Some? ==>
        r == AggregateReply(publicKey, Some(publicKey.value.n * publicKey.value.n), ciphertexts, now)
    {
      if publicKey.None? {
        return ErrorReply(500, "keys not ready");
      }
      if |ciphertexts| == 0 {
        return Response(200, AggregateBody(JNull, None, 0));
      }
      var prod := MultiplyAll(ciphertexts, n2);
      if prod.None? {
        return ErrorReply(500, "internal");
      }
      var aggregateB64 := Codec.BigintToBase64(prod.value);
      var aggregateCid := "agg_demo_" + NatToString(now);
      r := Response(200, AggregateBody(JStr(aggregateB64), Some(aggregateCid), |ciphertexts|));
    }

    /** `GET /api/decrypt`. */
    method Decrypt() returns (r: Response)
      requires Valid()
      ensures r == DecryptReply(privateKey, n2, ciphertexts)
      ensures privateKey.Some? ==>
        r == DecryptReply(privateKey, Some(publicKey.value.n * publicKey.value.n), ciphertexts)
    {
      if privateKey.None? {
        return ErrorReply(500, "keys not ready");
      }
      if |ciphertexts| == 0 {
        return ErrorReply(400, "no ciphertexts");
      }
      var prod := MultiplyAll(ciphertexts, n2);
      if prod.None? {
        return ErrorReply(500, "internal");
      }
      var plain := privateKey.value.decrypt(prod.value);
      r := Response(200, JObj([("plaintext", JStr(NatToString(plain))),
                               ("scale", JNum(100.0)),
                               ("count", JNum(|ciphertexts| as real))]));
    }
  }

  /** One more element: the values read grow by its value, or reading fails. */
  lemma {:induction false} ReadAllSnoc<T>(xs: seq<T>, f: T -> Option<nat>, i: nat)
    requires i < |xs|
    ensures ReadAll(xs[..i + 1], f) ==
      match ReadAll(xs[..i], f)
      case None => None
      case Some(vs) => match f(xs[i])
        case None => None
        case Some(v) => Some(vs + [v])
  {
    assert xs[..i + 1][..i] == xs[..i];
  }

  /** A step of the product loop: the next ciphertext joins the values read and the running product. */
  lemma {:induction false} MultiplyStep(items: seq<Submission>, i: nat, vs: seq<nat>, v: nat, m: nat, p: nat)
    requires i < |items| && m > 0 && DecodeAll(items[..i]) == Some(vs) && ReadItem(items[i]) == Some(v)
    requires i > 0 ==> p == ProdMod(vs, m)
    requires i == 0 ==> p == 1
    ensures DecodeAll(items[..i + 1]) == Some(vs + [v])
    ensures MulMod(p, v, m) == ProdMod(vs + [v], m)
  {
    ReadAllSnoc(items, ReadItem, i);
    assert (vs + [v])[..|vs|] == vs;
    if i == 0 {
      assert vs == [];
    }
  }

  /** A ciphertext that does not decode makes the whole product fail. */
  lemma {:induction false} MultiplyFails(items: seq<Submission>, n2: Option<nat>, i: nat, vs: seq<nat>)
    requires i < |items| && DecodeAll(items[..i]) == Some(vs) && ReadItem(items[i]).None?
    ensures StoreProduct(items, n2).None?
  {
    ReadAllSnoc(items, ReadItem, i);
    ReadAllNoneExtends(items, ReadItem, i + 1);
    StoreProductFails(items, n2);
  }

  /** Once reading a prefix fails, reading the whole fails. */
  lemma {:induction false} ReadAllNoneExtends<T>(xs: seq<T>, f: T -> Option<nat>, i: nat)
    requires i <= |xs| && ReadAll(xs[..i], f).None?
    ensures ReadAll(xs, f).None?
    decreases |xs| - i
  {
    if i == |xs| {
      assert xs[..i] == xs;
    } else {
      ReadAllSnoc(xs, f, i);
      ReadAllNoneExtends(xs, f, i + 1);
    }
  }

  /** Reading succeeds exactly when every element reads, and gives the elements' values in order. */
  lemma {:induction false} ReadAllEach<T>(xs: seq<T>, f: T -> Option<nat>, vs: seq<nat>)
    requires |vs| == |xs| && forall k :: 0 <= k < |xs| ==> f(xs[k]) == Some(vs[k])
    ensures ReadAll(xs, f) == Some(vs)
    decreases |xs|
  {
    if xs != [] {
      var k := |xs| - 1;
      ReadAllEach(xs[..k], f, vs[..k]);
      assert vs == vs[..k] + [vs[k]];
    }
  }

  /** Reading is piecewise: a concatenation reads when both parts do, to the concatenated values. */
  lemma {:induction false} ReadAllAppend<T>(a: seq<T>, b: seq<T>, f: T -> Option<nat>)
    ensures ReadAll(a + b, f) ==
      if ReadAll(a, f).Some? && ReadAll(b, f).Some? then Some(ReadAll(a, f).value + ReadAll(b, f).value) else None
    decreases |b|
  {
    if b == [] {
      assert a + b == a;
      if ReadAll(a, f).Some? {
        assert ReadAll(a, f).value + [] == ReadAll(a, f).value;
      }
    } else {
      var c := a + b;
      var bf := b[..|b| - 1];
      assert c[..|c| - 1] == a + bf;
      assert c[|c| - 1] == b[|b| - 1];
      ReadAllAppend(a, bf, f);
      if ReadAll(a, f).Some? && ReadAll(b, f).Some? {
        var va, vf := ReadAll(a, f).value, ReadAll(bf, f).value;
        var v := f(b[|b| - 1]).value;
        assert va + vf + [v] == va + (vf + [v]);
      }
    }
  }

  lemma {:induction false} ReadAllSingle<T>(x: T, f: T -> Option<nat>)
    ensures ReadAll([x], f) == if f(x).Some? then Some([f(x).value]) else None
  {
    assert [x][..0] == [];
    if f(x).Some? {
      assert [] + [f(x).value] == [f(x).value];
    }
  }

  lemma {:induction false} ReadAllPair<T>(x: T, y: T, f: T -> Option<nat>)
    ensures ReadAll([x, y], f) == if f(x).Some? && f(y).Some? then Some([f(x).value, f(y).value]) else None
  {
    assert [x, y][..1] == [x];
    ReadAllSingle(x, f);
    if f(x).Some? && f(y).Some? {
      assert [f(x).value] + [f(y).value] == [f(x).value, f(y).value];
    }
  }

  lemma {:induction false} StoreProductFails(items: seq<Submission>, n2: Option<nat>)
    requires DecodeAll(items).None?
    ensures StoreProduct(items, n2).None?
  {
  }

  lemma {:induction false} StoreProductNoModulus(items: seq<Submission>, n2: Option<nat>)
    requires items != [] && (n2.None? || n2.value == 0)
    ensures StoreProduct(items, n2).None?
  {
  }

  lemma {:induction false} StoreProductValue(items: seq<Submission>, m: nat, vs: seq<nat>)
    requires items != [] && m > 0 && DecodeAll(items) == Some(vs)
    ensures StoreProduct(items, Some(m)) == Some(ProdMod(vs, m))
  {
  }

  /** A successful product lies in [0, n2). */
  lemma {:induction false} StoreProductInRange(items: seq<Submission>, n2: Option<nat>)
    requires items != [] && StoreProduct(items, n2).Some?
    ensures n2.Some? && StoreProduct(items, n2).value < n2.value
  {
  }

  /** The aggregate does not depend on the order in which submissions arrived: swapping two neighbours keeps it. */
  lemma {:induction false} StoreProductSwap(a: seq<Submission>, x: Submission, y: Submission, b: seq<Submission>, n2: Option<nat>)
    ensures StoreProduct(a + [x, y] + b, n2) == StoreProduct(a + [y, x] + b, n2)
  {
    DecodeAround(a, x, y, b);
    DecodeAround(a, y, x, b);
    var da, db := DecodeAll(a), DecodeAll(b);
    if da.Some? && ReadItem(x).Some? && ReadItem(y).Some? && db.Some? && n2.Some? && n2.value > 0 {
      ProdModSwap(da.value, ReadItem(x).value, ReadItem(y).value, db.value, n2.value);
    }
  }

  /** A store decodes around two neighbours when both neighbours and what lies on each side decode. */
  lemma {:induction false} DecodeAround(a: seq<Submission>, x: Submission, y: Submission, b: seq<Submission>)
    ensures DecodeAll(a + [x, y] + b) ==
      if DecodeAll(a).Some? && ReadItem(x).Some? && ReadItem(y).Some? && DecodeAll(b).Some?
      then Some(DecodeAll(a).value + [ReadItem(x).value, ReadItem(y).value] + DecodeAll(b).value)
      else None
  {
    ReadAllAppend(a + [x, y], b, ReadItem);
    ReadAllAppend(a, [x, y], ReadItem);
    ReadAllPair(x, y, ReadItem);
  }

  /** Reading the public key's decimal fields back gives `n` and `g`. */
  lemma {:induction false} PublicKeyReadBack(pk: PublicKey)
    ensures DigitsValue(NatToString(pk.n)) == pk.n && DigitsValue(NatToString(pk.g)) == pk.g
  {
    NatToStringValue(pk.n);
    NatToStringValue(pk.g);
  }

  /** The store holds, in order, the base64 texts of the ciphertexts `cs`. */
  ghost predicate HoldsCiphertexts(items: seq<Submission>, cs: seq<nat>) {
    |items| == |cs| && forall k :: 0 <= k < |items| ==> items[k].ciphertext == JStr(Codec.BigintToBase64(cs[k]))
  }

  /** A store of base64 ciphertexts decodes to those ciphertexts. */
  lemma {:induction false} DecodeEncryptions(items: seq<Submission>, cs: seq<nat>)
    requires HoldsCiphertexts(items, cs)
    ensures DecodeAll(items) == Some(cs)
  {
    forall k | 0 <= k < |items|
      ensures ReadItem(items[k]) == Some(cs[k])
    {
      Codec.Base64RoundTrip(cs[k]);
    }
    ReadAllEach(items, ReadItem, cs);
  }

  /** The aggregate text the server answers reads back as the product of the stored ciphertexts modulo n². */
  lemma {:induction false} AggregateReadsBack(pk: PublicKey, items: seq<Submission>, now: nat, cs: seq<nat>)
    requires pk.n > 0 && items != [] && HoldsCiphertexts(items, cs)
    ensures var prod := ProdMod(cs, pk.n * pk.n);
      var text := Codec.BigintToBase64(prod);
      && AggregateReply(Some(pk), Some(pk.n * pk.n), items, now)
         == Response(200, AggregateBody(JStr(text), Some("agg_demo_" + NatToString(now)), |items|))
      && Codec.Base64ToBigint(text) == Some(prod)
  {
    var n2 := pk.n * pk.n;
    var prod := ProdMod(cs, n2);
    var text := Codec.BigintToBase64(prod);
    assert StoreProduct(items, Some(n2)) == Some(prod) by {
      StoreOfEncryptions(pk.n, items, cs);
    }
    assert AggregateReply(Some(pk), Some(n2), items, now) ==
      Response(200, AggregateBody(JStr(text), Some("agg_demo_" + NatToString(now)), |items|));
    Codec.Base64RoundTrip(prod);
  }

  /** The product of valid encryptions of `ms` is valid and decrypts to the sum of the metrics modulo `n`. */
  lemma {:induction false} EncryptionsDecryptToSum(n: nat, valid: nat -> bool, dec: nat -> nat, cs: seq<nat>, ms: seq<int>)
    requires n > 0 && Homomorphic(n, n * n, valid, dec)
    requires cs != [] && EncryptionsOf(n, valid, dec, cs, ms)
    ensures valid(ProdMod(cs, n * n))
    ensures dec(ProdMod(cs, n * n)) == Sum(ms) % n
  {
    var n2 := n * n;
    AggregateDecryptsToSum(n, n2, valid, dec, cs);
    var ps := Decryptions(cs, dec);
    forall k | 0 <= k < |ms|
      ensures ps[k] == ms[k] % n
    {
      assert ps[k] == dec(cs[k]);
    }
    SumMod(ms, ps, n);
  }

  /** Decrypting the aggregate of stored encryptions of `ms` gives the sum of the metrics modulo `n`. */
  lemma {:induction false} DecryptSumsMetrics(pk: PublicKey, sk: PrivateKey, valid: nat -> bool, items: seq<Submission>, cs: seq<nat>, ms: seq<int>)
    requires pk.n > 0 && Homomorphic(pk.n, pk.n * pk.n, valid, sk.decrypt)
    requires items != [] && HoldsCiphertexts(items, cs) && EncryptionsOf(pk.n, valid, sk.decrypt, cs, ms)
    ensures DecryptReply(Some(sk), Some(pk.n * pk.n), items) ==
      Response(200, JObj([("plaintext", JStr(NatToString(Sum(ms) % pk.n))),
                          ("scale", JNum(100.0)),
                          ("count", JNum(|items| as real))]))
  {
    StoreOfEncryptions(pk.n, items, cs);
    EncryptionsDecryptToSum(pk.n, valid, sk.decrypt, cs, ms);
  }

  /** A store of base64 ciphertexts multiplies out to the product of the ciphertexts modulo `n * n`. */
  lemma {:induction false} StoreOfEncryptions(n: nat, items: seq<Submission>, cs: seq<nat>)
    requires n > 0 && items != [] && HoldsCiphertexts(items, cs)
    ensures StoreProduct(items, Some(n * n)) == Some(ProdMod(cs, n * n))
  {
    var n2 := n * n;
    assert n2 > 0 by {
      assert n2 >= n;
    }
    assert DecodeAll(items) == Some(cs) by {
      DecodeEncryptions(items, cs);
    }
    StoreProductValue(items, n2, cs);
  }
}
