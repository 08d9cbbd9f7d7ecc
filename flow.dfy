/**
 * The client and the server together: what the client posts is stored
 * and aggregated by the server, and the decrypted aggregate the client
 * displays is the sum of the submitted metrics, reduced modulo `n` and
 * divided by the fixed scale.
 */
module EndToEnd {
  import opened Wrappers
  import opened JsText
  import opened JsValues
  import opened Records
  import opened Metric
  import opened Aggregation
  import opened ApiServer
  import opened Platform
  import Codec

  /** The server's submit route accepts every ciphertext the client posts. */
  lemma {:induction false} PostedCiphertextAccepted(algorithm: string, file: Option<FileInfo>, data: Option<Extracted>, encrypt: int -> nat)
    requires SubmitRequest(algorithm, file, data, encrypt).Success?
    ensures Truthy(JStr(SubmitRequest(algorithm, file, data, encrypt).value.ciphertext))
  {
    PostedCiphertextNonEmpty(encrypt(ScaleMetric(DemoMetric(data))));
  }

  /** The scaled metric each upload submits. */
  function SubmittedMetrics(uploads: seq<Option<Extracted>>): (ms: seq<int>)
    ensures |ms| == |uploads|
  {
    seq(|uploads|, k requires 0 <= k < |uploads| => ScaleMetric(DemoMetric(uploads[k])))
  }

  /**
   * The ciphertext each upload submits. Paillier encryption is randomised,
   * so each submission has its own encryption function `encs[k]`, fixed by
   * the randomness that submission drew.
   */
  function SubmittedCiphertexts(uploads: seq<Option<Extracted>>, encs: seq<int -> nat>): (cs: seq<nat>)
    requires |encs| == |uploads|
    ensures |cs| == |uploads|
    ensures forall k :: 0 <= k < |uploads| ==> cs[k] == encs[k](SubmittedMetrics(uploads)[k])
  {
    seq(|uploads|, k requires 0 <= k < |uploads| => encs[k](ScaleMetric(DemoMetric(uploads[k]))))
  }

  /** A store filled, in order, by the client's submissions for `uploads` holds the base64 texts of their ciphertexts. */
  lemma {:induction false} StoreHoldsSubmittedMetrics(items: seq<Submission>, files: seq<FileInfo>, uploads: seq<Option<Extracted>>, encs: seq<int -> nat>)
    requires |items| == |uploads| && |files| == |uploads| && |encs| == |uploads|
    requires forall k :: 0 <= k < |items| ==>
      && SubmitRequest("paillier", Some(files[k]), uploads[k], encs[k]).Success?
      && items[k].ciphertext == JStr(SubmitRequest("paillier", Some(files[k]), uploads[k], encs[k]).value.ciphertext)
    ensures HoldsCiphertexts(items, SubmittedCiphertexts(uploads, encs))
  {
    var cs := SubmittedCiphertexts(uploads, encs);
    forall k | 0 <= k < |items|
      ensures items[k].ciphertext == JStr(Codec.BigintToBase64(cs[k]))
    {
      assert cs[k] == encs[k](ScaleMetric(DemoMetric(uploads[k])));
    }
  }

  /** Each submission's ciphertext is a valid encryption of its scaled metric. */
  lemma {:induction false} SubmissionsEncryptMetrics(n: nat, valid: nat -> bool, dec: nat -> nat, uploads: seq<Option<Extracted>>, encs: seq<int -> nat>)
    requires n > 0 && |encs| == |uploads|
    requires forall k :: 0 <= k < |encs| ==> EncryptsUnder(n, valid, encs[k], dec)
    ensures EncryptionsOf(n, valid, dec, SubmittedCiphertexts(uploads, encs), SubmittedMetrics(uploads))
  {
    var cs, ms := SubmittedCiphertexts(uploads, encs), SubmittedMetrics(uploads);
    forall k | 0 <= k < |cs|
      ensures valid(cs[k]) && dec(cs[k]) == ms[k] % n
    {
      assert EncryptsUnder(n, valid, encs[k], dec);
      assert cs[k] == encs[k](ms[k]);
    }
  }

  /** The client displays the decrypted aggregate as the sum of the stored metrics modulo `n`, over 100. */
  lemma {:induction false} DisplayedAggregateIsSum(pk: PublicKey, sk: PrivateKey, valid: nat -> bool, items: seq<Submission>, cs: seq<nat>, ms: seq<int>)
    requires pk.n > 0 && Homomorphic(pk.n, pk.n * pk.n, valid, sk.decrypt)
    requires items != [] && HoldsCiphertexts(items, cs) && EncryptionsOf(pk.n, valid, sk.decrypt, cs, ms)
    ensures var d := DisplayedAggregate(DecryptReply(Some(sk), Some(pk.n * pk.n), items).body);
      && d.Some? && d.value * 100.0 == (Sum(ms) % pk.n) as real
      && (0 <= Sum(ms) < pk.n ==> d.value * 100.0 == Sum(ms) as real)
  {
    DecryptSumsMetrics(pk, sk, valid, items, cs, ms);
    DisplayedDecryptReply(sk, pk.n, items, Sum(ms));
    if 0 <= Sum(ms) < pk.n {
      ModUnique(Sum(ms), 0, Sum(ms), pk.n);
    }
  }

  /**
   * The whole demo: when every stored submission is the client's
   * encrypt-and-submit of an upload, each under its own randomness, the
   * decrypted aggregate the client displays is the sum of the uploads'
   * scaled metrics modulo `n`, over 100.
   */
  lemma {:induction false} SubmissionsDisplaySum(pk: PublicKey, sk: PrivateKey, valid: nat -> bool, items: seq<Submission>,
                                                 files: seq<FileInfo>, uploads: seq<Option<Extracted>>, encs: seq<int -> nat>)
    requires pk.n > 0 && Homomorphic(pk.n, pk.n * pk.n, valid, sk.decrypt)
    requires forall k :: 0 <= k < |encs| ==> EncryptsUnder(pk.n, valid, encs[k], sk.decrypt)
    requires items != [] && |items| == |uploads| && |files| == |uploads| && |encs| == |uploads|
    requires forall k :: 0 <= k < |items| ==>
      && SubmitRequest("paillier", Some(files[k]), uploads[k], encs[k]).Success?
      && items[k].ciphertext == JStr(SubmitRequest("paillier", Some(files[k]), uploads[k], encs[k]).value.ciphertext)
    ensures var d := DisplayedAggregate(DecryptReply(Some(sk), Some(pk.n * pk.n), items).body);
      d.Some? && d.value * 100.0 == (Sum(SubmittedMetrics(uploads)) % pk.n) as real
  {
    var cs, ms := SubmittedCiphertexts(uploads, encs), SubmittedMetrics(uploads);
    StoreHoldsSubmittedMetrics(items, files, uploads, encs);
    SubmissionsEncryptMetrics(pk.n, valid, sk.decrypt, uploads, encs);
    DisplayedAggregateIsSum(pk, sk, valid, items, cs, ms);
  }

  /**
   * One demo session against a fresh server: the keys are set, the client
   * encrypts and submits each upload in turn, each under its own
   * randomness, and the auditor's decrypt is displayed. `now` and `random`
   * stand for the clock and `Math.random()` at the submissions.
   */
  method DemoSession(pk: PublicKey, sk: PrivateKey, valid: nat -> bool, files: seq<FileInfo>, uploads: seq<Option<Extracted>>,
                     encs: seq<int -> nat>, now: nat, random: real) returns (shown: Option<real>)
    requires pk.n > 0 && Homomorphic(pk.n, pk.n * pk.n, valid, sk.decrypt)
    requires forall k :: 0 <= k < |encs| ==> EncryptsUnder(pk.n, valid, encs[k], sk.decrypt)
    requires uploads != [] && |files| == |uploads| && |encs| == |uploads|
    requires forall k :: 0 <= k < |uploads| ==> uploads[k].Some?
    requires 0.0 <= random < 1.0
    ensures shown.Some? && shown.value * 100.0 == (Sum(SubmittedMetrics(uploads)) % pk.n) as real
  {
    var server := new Server();
    server.InitKeys(pk, sk);
    ghost var cs := SubmittedCiphertexts(uploads, encs);
    SubmitAll(server, files, uploads, encs, now, random, []);
    var r := server.Decrypt();
    shown := DisplayedAggregate(r.body);
    SubmissionsEncryptMetrics(pk.n, valid, sk.decrypt, uploads, encs);
    DisplayedAggregateIsSum(pk, sk, valid, server.ciphertexts, cs, SubmittedMetrics(uploads));
  }

  /**
   * Each upload in turn is encrypted by its own encryption function and
   * submitted; the store then holds, after what it held before, the
   * submitted ciphertexts in upload order.
   */
  method SubmitAll(server: Server, files: seq<FileInfo>, uploads: seq<Option<Extracted>>, encs: seq<int -> nat>,
                   now: nat, random: real, ghost prior: seq<nat>)
    requires server.Valid() && HoldsCiphertexts(server.ciphertexts, prior)
    requires |files| == |uploads| && |encs| == |uploads|
    requires forall k :: 0 <= k < |uploads| ==> uploads[k].Some?
    requires 0.0 <= random < 1.0
    modifies server`ciphertexts
    ensures server.Valid() && HoldsCiphertexts(server.ciphertexts, prior + SubmittedCiphertexts(uploads, encs))
  {
    ghost var cs := SubmittedCiphertexts(uploads, encs);
    var i := 0;
    while i < |uploads|
      invariant 0 <= i <= |uploads|
      invariant server.Valid() && HoldsCiphertexts(server.ciphertexts, prior + cs[..i])
    {
      ghost var before := server.ciphertexts;
      ClientSubmits(server, files[i], uploads[i], encs[i], now, random);
      HoldsOneMore(before, server.ciphertexts, prior + cs[..i], cs[i]);
      PrefixGrows(prior, cs, i);
      i := i + 1;
    }
    assert cs[..i] == cs;
  }

  /** Extending a prefix of `cs` by its next element. */
  lemma PrefixGrows(prior: seq<nat>, cs: seq<nat>, i: nat)
    requires i < |cs|
    ensures prior + cs[..i + 1] == (prior + cs[..i]) + [cs[i]]
  {
    assert cs[..i + 1] == cs[..i] + [cs[i]];
  }

  /** Appending the base64 text of one more ciphertext extends what the store holds by that ciphertext. */
  lemma HoldsOneMore(before: seq<Submission>, after: seq<Submission>, cs: seq<nat>, c: nat)
    requires HoldsCiphertexts(before, cs)
    requires |after| == |before| + 1 && after[..|before|] == before
    requires after[|before|].ciphertext == JStr(Codec.BigintToBase64(c))
    ensures HoldsCiphertexts(after, cs + [c])
  {
    forall k | 0 <= k < |after|
      ensures after[k].ciphertext == JStr(Codec.BigintToBase64((cs + [c])[k]))
    {
      if k < |before| {
        assert after[k] == after[..|before|][k] == before[k];
        assert (cs + [c])[k] == cs[k];
      } else {
        assert (cs + [c])[k] == c;
      }
    }
  }

  /** The client encrypts and submits one upload, and the server stores the posted ciphertext at the end. */
  method ClientSubmits(server: Server, file: FileInfo, upload: Option<Extracted>, encrypt: int -> nat, now: nat, random: real)
    requires server.Valid() && upload.Some? && 0.0 <= random < 1.0
    modifies server`ciphertexts
    ensures server.Valid()
    ensures |server.ciphertexts| == |old(server.ciphertexts)| + 1
    ensures server.ciphertexts[..|old(server.ciphertexts)|] == old(server.ciphertexts)
    ensures server.ciphertexts[|old(server.ciphertexts)|].ciphertext
      == JStr(Codec.BigintToBase64(encrypt(ScaleMetric(DemoMetric(upload)))))
  {
    var request := EncryptAndSubmit("paillier", Some(file), upload, encrypt);
    SubmitGuards("paillier", Some(file), upload, encrypt);
    PostedCiphertextAccepted("paillier", Some(file), upload, encrypt);
    var reply := server.Submit(JStr(request.value.ciphertext), request.value.meta, now, random);
  }

  /** A decryption reply carrying plaintext `total % n` is displayed as `(total % n) / 100`. */
  lemma {:induction false} DisplayedDecryptReply(sk: PrivateKey, n: nat, items: seq<Submission>, total: int)
    requires n > 0
    requires DecryptReply(Some(sk), Some(n * n), items).body
      == JObj([("plaintext", JStr(NatToString(total % n))), ("scale", JNum(100.0)), ("count", JNum(|items| as real))])
    ensures var d := DisplayedAggregate(DecryptReply(Some(sk), Some(n * n), items).body);
      d.Some? && d.value * 100.0 == (total % n) as real
  {
    var p := total % n;
    DisplayedPlaintext(p, |items|);
  }
}
