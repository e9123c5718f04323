/** What the envelope promises, stated over the model of lib/kruptein.js and
    proved from the laws of the primitives in module Runtime. */
module Properties {
  import opened Wrappers
  import opened Matching
  import opened Json
  import opened Runtime
  import Matrix
  import opened Kruptein

  /** The pieces `set` computes (lines 28-37) for a plaintext and an IV draw,
      when it succeeds. */
  datatype Pieces = Pieces(iv: Bytes, key: Bytes, text: string, aad: Option<string>, sealed: Encrypted, hmac: string)

  function PiecesOf(k: Kruptein, p: Json, random: Bytes): Pieces
    requires k.Envelope(p, random).Ok?
    reads k
  {
    var iv := k.Iv(k.ivSize, random).value;
    var key := k.secret.value;
    var text := k.crypto.value.stringify(p);
    var aad := k.Aad(iv, key, text).value;
    var sealed := k.Encrypt(key, text, iv, aad).value;
    Pieces(iv, key, text, aad, sealed, k.Digest(key, sealed.ct).value)
  }

  /** The envelope is the record literal over those pieces. */
  lemma EnvelopeIsRecord(k: Kruptein, p: Json, random: Bytes)
    requires k.Envelope(p, random).Ok?
    ensures
      var x := PiecesOf(k, p, random);
      && k.Aad(x.iv, x.key, x.text).Ok? && k.Encrypt(x.key, x.text, x.iv, x.aad).Ok?
      && k.Envelope(p, random).value == Record(x.hmac, x.sealed.ct, x.sealed.at, x.aad, x.iv)
  {
  }

  /** A non-empty text in an encoding whose texts round-trip decodes to
      non-empty bytes when it is the encoding of non-empty bytes. */
  lemma EncodedNotEmpty(rt: Runtime, encoding: string, b: Bytes)
    requires TextRoundTrips(rt, encoding) && |b| > 0
    ensures rt.toText(encoding, b) != ""
  {
    assert rt.fromText(encoding, rt.toText(encoding, b)) == b;
  }

  /** The laws under which `get` undoes `set`. */
  ghost predicate RoundTripLaws(k: Kruptein)
    reads k
  {
    && k.crypto.Some?
    && JsonRoundTrips(k.crypto.value)
    && TextRoundTrips(k.crypto.value, k.encodeas)
    && HmacNonEmpty(k.crypto.value)
    && DecryptInvertsEncrypt(k.crypto.value, k.algorithm)
    && TagExactlyWhen(k.crypto.value, k.algorithm, k.flag)
  }

  /** The AAD bytes `_encrypt` hands the cipher for these pieces. */
  function AadBytes(k: Kruptein, x: Pieces): Option<Bytes>
    requires k.crypto.Some?
    reads k
  {
    k.AadInput(x.aad)
  }

  /** What the cipher returned for these pieces. */
  function CipherOutput(k: Kruptein, x: Pieces): Option<Sealed>
    requires k.crypto.Some?
    reads k
  {
    k.Sealing(x.key, x.text, x.iv, x.aad)
  }

  /** Once the MAC matches and the tag and IV convert, `get` is `_decrypt` on
      what the record holds. */
  lemma GetAfterMac(k: Kruptein, text: string, record: Json)
    requires k.crypto.Some? && k.secret.Some?
    requires Received(k.crypto.value, text) == Some(record) && record.JObj?
    requires k.MacMatches(record)
    requires k.TagFrom(k.crypto.value, Member(record, "at")).Ok?
    requires k.IvFrom(k.crypto.value, Member(record, "iv")).Ok?
    ensures k.Get(text) == k.Decrypt(k.secret.value, Member(record, "ct").value.s,
      k.IvFrom(k.crypto.value, Member(record, "iv")).value,
      k.TagFrom(k.crypto.value, Member(record, "at")).value, Member(record, "aad"))
  {
  }

  /** The envelope `set` serializes is what `get` parses, and its MAC matches. */
  lemma EnvelopeReceived(k: Kruptein, p: Json, random: Bytes)
    requires k.crypto.Some? && JsonRoundTrips(k.crypto.value)
    requires k.Set(p, random).Ok?
    ensures
      var x := PiecesOf(k, p, random);
      var record := Record(x.hmac, x.sealed.ct, x.sealed.at, x.aad, x.iv);
      && Received(k.crypto.value, k.Set(p, random).value) == Some(record)
      && k.MacMatches(record)
  {
    EnvelopeIsRecord(k, p, random);
  }

  /** In AEAD mode the AAD text is not empty, so `_encrypt` did set it. */
  lemma AadNotEmpty(k: Kruptein, p: Json, random: Bytes)
    requires k.crypto.Some? && TextRoundTrips(k.crypto.value, k.encodeas) && HmacNonEmpty(k.crypto.value)
    requires k.Envelope(p, random).Ok? && k.flag
    ensures PiecesOf(k, p, random).aad.Some? && PiecesOf(k, p, random).aad.value != ""
  {
    var rt := k.crypto.value;
    EnvelopeIsRecord(k, p, random);
    var x := PiecesOf(k, p, random);
    var mac := rt.hmac(k.hashing, AadKey(rt, x.iv, x.key), rt.fromText(Utf8, x.text)).value;
    assert x.aad.value == rt.toText(k.encodeas, mac);
    EncodedNotEmpty(rt, k.encodeas, mac);
  }

  /** `get` hands the decipher the AAD bytes `set` handed the cipher. */
  lemma AadReadBack(k: Kruptein, p: Json, random: Bytes)
    requires k.crypto.Some? && TextRoundTrips(k.crypto.value, k.encodeas) && HmacNonEmpty(k.crypto.value)
    requires k.Envelope(p, random).Ok?
    ensures
      var x := PiecesOf(k, p, random);
      var record := Record(x.hmac, x.sealed.ct, x.sealed.at, x.aad, x.iv);
      k.DecipherAad(k.crypto.value, Member(record, "aad")) == Ok(AadBytes(k, x))
  {
    EnvelopeIsRecord(k, p, random);
    var x := PiecesOf(k, p, random);
    RecordMembers(x.hmac, x.sealed.ct, x.sealed.at, x.aad, x.iv);
    if k.flag {
      AadNotEmpty(k, p, random);
    }
  }

  /** `get` reads back the IV. */
  lemma IvReadBack(k: Kruptein, p: Json, random: Bytes)
    requires k.Envelope(p, random).Ok?
    ensures
      var x := PiecesOf(k, p, random);
      var record := Record(x.hmac, x.sealed.ct, x.sealed.at, x.aad, x.iv);
      k.IvFrom(k.crypto.value, Member(record, "iv")) == Ok(x.iv)
  {
    var x := PiecesOf(k, p, random);
    RecordMembers(x.hmac, x.sealed.ct, x.sealed.at, x.aad, x.iv);
    BufferJsonRoundTrip(k.crypto.value, k.encodeas, x.iv);
  }

  /** `get` reads back the tag the cipher produced: none outside AEAD mode. */
  lemma TagReadBack(k: Kruptein, p: Json, random: Bytes)
    requires k.crypto.Some? && TagExactlyWhen(k.crypto.value, k.algorithm, k.flag)
    requires k.Envelope(p, random).Ok?
    ensures
      var x := PiecesOf(k, p, random);
      var record := Record(x.hmac, x.sealed.ct, x.sealed.at, x.aad, x.iv);
      && CipherOutput(k, x).Some?
      && k.TagFrom(k.crypto.value, Member(record, "at")) == Ok(CipherOutput(k, x).value.tag)
  {
    EnvelopeIsRecord(k, p, random);
    var x := PiecesOf(k, p, random);
    RecordMembers(x.hmac, x.sealed.ct, x.sealed.at, x.aad, x.iv);
    if k.flag {
      BufferJsonRoundTrip(k.crypto.value, k.encodeas, x.sealed.at.value);
    } else {
      assert CipherOutput(k, x).value.tag == None;
    }
  }

  /** The ciphertext text `set` wrote decodes to the cipher's output. */
  lemma CiphertextReadBack(k: Kruptein, p: Json, random: Bytes)
    requires k.crypto.Some? && TextRoundTrips(k.crypto.value, k.encodeas)
    requires k.Envelope(p, random).Ok?
    ensures CipherOutput(k, PiecesOf(k, p, random)).Some?
    ensures k.crypto.value.fromText(k.encodeas, PiecesOf(k, p, random).sealed.ct) == CipherOutput(k, PiecesOf(k, p, random)).value.ct
  {
    EnvelopeIsRecord(k, p, random);
  }

  /** `get(set(p))` gives back the JSON text of `p`, after that text has been
      taken as bytes in `encodeas` and read back as UTF-8: the text itself, not
      the value it was made from. */
  lemma RoundTrip(k: Kruptein, p: Json, random: Bytes)
    requires RoundTripLaws(k)
    requires k.Set(p, random).Ok?
    ensures k.Get(k.Set(p, random).value) ==
      Ok(k.crypto.value.toText(Utf8, k.crypto.value.fromText(k.encodeas, k.crypto.value.stringify(p))))
  {
    var x := PiecesOf(k, p, random);
    var record := Record(x.hmac, x.sealed.ct, x.sealed.at, x.aad, x.iv);
    RecordMembers(x.hmac, x.sealed.ct, x.sealed.at, x.aad, x.iv);
    EnvelopeReceived(k, p, random);
    AadReadBack(k, p, random);
    IvReadBack(k, p, random);
    TagReadBack(k, p, random);
    CiphertextReadBack(k, p, random);
    GetAfterMac(k, k.Set(p, random).value, record);
  }

  /** The round trip is exact, `get(set(p))` being the JSON text of `p`, exactly
      when that text survives being taken as bytes in `encodeas` and read back
      as UTF-8 (for the default 'binary', when it is ASCII). */
  lemma RoundTripExactIff(k: Kruptein, p: Json, random: Bytes)
    requires RoundTripLaws(k)
    requires k.Set(p, random).Ok?
    ensures k.Get(k.Set(p, random).value) == Ok(k.crypto.value.stringify(p)) <==>
      k.crypto.value.toText(Utf8, k.crypto.value.fromText(k.encodeas, k.crypto.value.stringify(p))) == k.crypto.value.stringify(p)
  {
    RoundTrip(k, p, random);
  }

  /** The envelope `set` builds, for a plaintext and an IV draw. */
  function EnvelopeOf(k: Kruptein, p: Json, random: Bytes): Json
    requires k.Envelope(p, random).Ok?
    reads k
  {
    var x := PiecesOf(k, p, random);
    Record(x.hmac, x.sealed.ct, x.sealed.at, x.aad, x.iv)
  }

  /** An envelope whose `hmac` has been replaced by any other text is refused
      as tampered with. */
  lemma ForgedHmacRefused(k: Kruptein, p: Json, random: Bytes, forgery: string)
    requires k.crypto.Some? && JsonRoundTrips(k.crypto.value)
    requires k.Set(p, random).Ok?
    requires forgery != PiecesOf(k, p, random).hmac
    ensures k.Get(k.crypto.value.stringify(Assign(EnvelopeOf(k, p, random), "hmac", JStr(forgery)))) == Err(Tampered)
  {
    var x := PiecesOf(k, p, random);
    var record := EnvelopeOf(k, p, random);
    EnvelopeReceived(k, p, random);
    RecordMembers(x.hmac, x.sealed.ct, x.sealed.at, x.aad, x.iv);
    var forged := Assign(record, "hmac", JStr(forgery));
    AssignThenMember(record, "hmac", JStr(forgery), "ct");
    assert Received(k.crypto.value, k.crypto.value.stringify(forged)) == Some(forged);
    assert k.MacRefuted(forged);
  }

  /** An envelope whose `ct` has been replaced by a ciphertext with a different
      MAC is refused as tampered with, before anything is decrypted. */
  lemma ForgedCiphertextRefused(k: Kruptein, p: Json, random: Bytes, forgery: string)
    requires k.crypto.Some? && JsonRoundTrips(k.crypto.value)
    requires k.Set(p, random).Ok?
    requires k.Digest(k.secret.value, forgery).Ok?
    requires k.Digest(k.secret.value, forgery).value != PiecesOf(k, p, random).hmac
    ensures k.Get(k.crypto.value.stringify(Assign(EnvelopeOf(k, p, random), "ct", JStr(forgery)))) == Err(Tampered)
  {
    var x := PiecesOf(k, p, random);
    var record := EnvelopeOf(k, p, random);
    EnvelopeReceived(k, p, random);
    RecordMembers(x.hmac, x.sealed.ct, x.sealed.at, x.aad, x.iv);
    var forged := Assign(record, "ct", JStr(forgery));
    AssignThenMember(record, "ct", JStr(forgery), "hmac");
    assert Received(k.crypto.value, k.crypto.value.stringify(forged)) == Some(forged);
    assert k.MacRefuted(forged);
  }

  /** An envelope with a field other than `hmac`, `ct` and `iv` overwritten
      still parses, still passes the MAC check and still yields its IV. */
  lemma ForgeryPassesMac(k: Kruptein, p: Json, random: Bytes, field: string, value: Json)
    requires k.crypto.Some? && JsonRoundTrips(k.crypto.value)
    requires k.Set(p, random).Ok?
    requires field != "hmac" && field != "ct" && field != "iv"
    ensures
      var x := PiecesOf(k, p, random);
      var forged := Assign(EnvelopeOf(k, p, random), field, value);
      && Received(k.crypto.value, k.crypto.value.stringify(forged)) == Some(forged)
      && k.MacMatches(forged)
      && Member(forged, "ct") == Some(JStr(x.sealed.ct))
      && Member(forged, field) == Some(value)
      && k.IvFrom(k.crypto.value, Member(forged, "iv")) == Ok(x.iv)
  {
    var x := PiecesOf(k, p, random);
    var record := EnvelopeOf(k, p, random);
    EnvelopeReceived(k, p, random);
    RecordMembers(x.hmac, x.sealed.ct, x.sealed.at, x.aad, x.iv);
    IvReadBack(k, p, random);
    AssignThenMember(record, field, value, "ct");
    AssignThenMember(record, field, value, "hmac");
    AssignThenMember(record, field, value, "iv");
  }

  /** Whatever tag and AAD the decipher opens the envelope's ciphertext
      under, it yields the plaintext `set` sealed; under the envelope's own
      tag it opens only with the envelope's AAD bytes, and under those AAD
      bytes only with the envelope's own tag. */
  lemma DecryptOnlyAuthentic(k: Kruptein, p: Json, random: Bytes, tag: Option<Bytes>, aad: Option<Json>)
    requires k.crypto.Some? && TextRoundTrips(k.crypto.value, k.encodeas)
    requires AcceptsOnlySealed(k.crypto.value, k.algorithm) && SealBinds(k.crypto.value, k.algorithm)
    requires k.Envelope(p, random).Ok?
    requires k.Decrypt(k.secret.value, PiecesOf(k, p, random).sealed.ct, PiecesOf(k, p, random).iv, tag, aad).Ok?
    ensures CipherOutput(k, PiecesOf(k, p, random)).Some?
    ensures k.DecipherAad(k.crypto.value, aad).Ok?
    ensures
      var rt := k.crypto.value;
      var x := PiecesOf(k, p, random);
      k.Decrypt(x.key, x.sealed.ct, x.iv, tag, aad) == Ok(rt.toText(Utf8, rt.fromText(k.encodeas, x.text)))
    ensures tag == CipherOutput(k, PiecesOf(k, p, random)).value.tag ==>
      AadOrEmpty(k.DecipherAad(k.crypto.value, aad).value) == AadOrEmpty(AadBytes(k, PiecesOf(k, p, random)))
    ensures k.DecipherAad(k.crypto.value, aad).value == AadBytes(k, PiecesOf(k, p, random)) ==>
      tag == CipherOutput(k, PiecesOf(k, p, random)).value.tag
  {
    var rt := k.crypto.value;
    var x := PiecesOf(k, p, random);
    CiphertextReadBack(k, p, random);
    var params := k.Params(x.key, x.iv);
    var got := k.DecipherAad(rt, aad).value;
    var ct := rt.fromText(k.encodeas, x.sealed.ct);
    var plain := rt.decrypt(params, tag, got, ct).value;
    assert rt.encrypt(params, got, plain) == Some(Sealed(ct, tag));
    assert CipherOutput(k, x) == rt.encrypt(params, AadBytes(k, x), rt.fromText(k.encodeas, x.text));
    assert plain == rt.fromText(k.encodeas, x.text);
  }

  /** The laws the forgery lemmas rest on: the record survives JSON, the
      encoding round-trips, HMACs are not empty, and the cipher decrypts what
      it sealed, accepts only sealings and binds its AAD to its tag. */
  ghost predicate ForgeryLaws(k: Kruptein)
    reads k
  {
    && k.crypto.Some?
    && JsonRoundTrips(k.crypto.value)
    && TextRoundTrips(k.crypto.value, k.encodeas)
    && HmacNonEmpty(k.crypto.value)
    && DecryptInvertsEncrypt(k.crypto.value, k.algorithm)
    && AcceptsOnlySealed(k.crypto.value, k.algorithm)
    && SealBinds(k.crypto.value, k.algorithm)
  }

  /** `_decrypt` of the envelope's ciphertext under its own tag but AAD text
      that decodes to other bytes fails in the decipher. */
  lemma ForgedAadDecryptFails(k: Kruptein, p: Json, random: Bytes, forgery: string)
    requires ForgeryLaws(k) && k.flag
    requires k.Envelope(p, random).Ok?
    requires k.crypto.value.fromText(k.encodeas, forgery) != k.crypto.value.fromText(k.encodeas, PiecesOf(k, p, random).aad.value)
    ensures
      var x := PiecesOf(k, p, random);
      k.Decrypt(k.secret.value, x.sealed.ct, x.iv, x.sealed.at, Some(JStr(forgery))) == Err(CryptoFailure("decipher"))
  {
    var x := PiecesOf(k, p, random);
    EnvelopeIsRecord(k, p, random);
    AadNotEmpty(k, p, random);
    assert k.DecipherAad(k.crypto.value, Some(JStr(forgery))) == Ok(Some(k.crypto.value.fromText(k.encodeas, forgery)));
    if k.Decrypt(x.key, x.sealed.ct, x.iv, x.sealed.at, Some(JStr(forgery))).Ok? {
      DecryptOnlyAuthentic(k, p, random, x.sealed.at, Some(JStr(forgery)));
      assert false;
    }
  }

  /** In AEAD mode, an envelope whose `aad` has been replaced by text that
      decodes to other bytes passes the MAC check but fails to decrypt. */
  lemma ForgedAadRefused(k: Kruptein, p: Json, random: Bytes, forgery: string)
    requires ForgeryLaws(k) && TagExactlyWhen(k.crypto.value, k.algorithm, k.flag) && k.flag
    requires k.Set(p, random).Ok?
    requires k.crypto.value.fromText(k.encodeas, forgery) != k.crypto.value.fromText(k.encodeas, PiecesOf(k, p, random).aad.value)
    ensures k.Get(k.crypto.value.stringify(Assign(EnvelopeOf(k, p, random), "aad", JStr(forgery)))) == Err(CryptoFailure("decipher"))
  {
    var rt := k.crypto.value;
    var x := PiecesOf(k, p, random);
    var forged := Assign(EnvelopeOf(k, p, random), "aad", JStr(forgery));
    ForgeryPassesMac(k, p, random, "aad", JStr(forgery));
    AssignThenMember(EnvelopeOf(k, p, random), "aad", JStr(forgery), "at");
    TagReadBack(k, p, random);
    EnvelopeIsRecord(k, p, random);
    GetAfterMac(k, rt.stringify(forged), forged);
    ForgedAadDecryptFails(k, p, random, forgery);
  }

  /** `_decrypt` of the envelope's ciphertext under its own AAD but another
      tag, or none, fails in the decipher. */
  lemma ForgedTagDecryptFails(k: Kruptein, p: Json, random: Bytes, tag: Option<Bytes>)
    requires ForgeryLaws(k) && k.flag
    requires k.Envelope(p, random).Ok?
    requires tag != PiecesOf(k, p, random).sealed.at
    ensures
      var x := PiecesOf(k, p, random);
      var record := Record(x.hmac, x.sealed.ct, x.sealed.at, x.aad, x.iv);
      k.Decrypt(k.secret.value, x.sealed.ct, x.iv, tag, Member(record, "aad")) == Err(CryptoFailure("decipher"))
  {
    var x := PiecesOf(k, p, random);
    var record := Record(x.hmac, x.sealed.ct, x.sealed.at, x.aad, x.iv);
    AadReadBack(k, p, random);
    EnvelopeIsRecord(k, p, random);
    if k.Decrypt(x.key, x.sealed.ct, x.iv, tag, Member(record, "aad")).Ok? {
      DecryptOnlyAuthentic(k, p, random, tag, Member(record, "aad"));
      assert false;
    }
  }

  /** In AEAD mode, any text `get` receives whose record
      carries the envelope's `hmac`, `ct`, `iv` and `aad` but whose `at` does
      not give back the envelope's tag is refused: a forged, falsy or deleted
      `at` either fails to convert or fails in the decipher. */
  lemma TagMismatchRefused(k: Kruptein, p: Json, random: Bytes, text: string, forged: Json)
    requires ForgeryLaws(k) && k.flag
    requires k.Set(p, random).Ok?
    requires Received(k.crypto.value, text) == Some(forged)
    requires
      var record := EnvelopeOf(k, p, random);
      && Member(forged, "hmac") == Member(record, "hmac")
      && Member(forged, "ct") == Member(record, "ct")
      && Member(forged, "iv") == Member(record, "iv")
      && Member(forged, "aad") == Member(record, "aad")
    requires k.TagFrom(k.crypto.value, Member(forged, "at")) != Ok(PiecesOf(k, p, random).sealed.at)
    ensures k.MacMatches(forged)
    ensures k.TagFrom(k.crypto.value, Member(forged, "at")).Err? ==> k.Get(text) == Err(TypeError("Buffer.from"))
    ensures k.TagFrom(k.crypto.value, Member(forged, "at")).Ok? ==> k.Get(text) == Err(CryptoFailure("decipher"))
  {
    var rt := k.crypto.value;
    var x := PiecesOf(k, p, random);
    EnvelopeReceived(k, p, random);
    RecordMembers(x.hmac, x.sealed.ct, x.sealed.at, x.aad, x.iv);
    assert forged.JObj? && k.MacMatches(forged);
    IvReadBack(k, p, random);
    var tag := k.TagFrom(rt, Member(forged, "at"));
    if tag.Ok? {
      GetAfterMac(k, text, forged);
      ForgedTagDecryptFails(k, p, random, tag.value);
    }
  }

  /** In AEAD mode, an envelope whose `at` has been
      overwritten by any JSON value that does not convert back to the tag,
      a text tag as much as a serialized Buffer, passes the MAC check and is
      then refused. */
  lemma ForgedTagRefused(k: Kruptein, p: Json, random: Bytes, forgery: Json)
    requires ForgeryLaws(k) && k.flag
    requires k.Set(p, random).Ok?
    requires k.TagFrom(k.crypto.value, Some(forgery)) != Ok(PiecesOf(k, p, random).sealed.at)
    ensures
      var forged := Assign(EnvelopeOf(k, p, random), "at", forgery);
      && k.MacMatches(forged)
      && (k.TagFrom(k.crypto.value, Some(forgery)).Err? ==>
            k.Get(k.crypto.value.stringify(forged)) == Err(TypeError("Buffer.from")))
      && (k.TagFrom(k.crypto.value, Some(forgery)).Ok? ==>
            k.Get(k.crypto.value.stringify(forged)) == Err(CryptoFailure("decipher")))
  {
    var rt := k.crypto.value;
    var record := EnvelopeOf(k, p, random);
    var forged := Assign(record, "at", forgery);
    assert Received(rt, rt.stringify(forged)) == Some(forged);
    AssignThenMember(record, "at", forgery, "hmac");
    AssignThenMember(record, "at", forgery, "ct");
    AssignThenMember(record, "at", forgery, "iv");
    AssignThenMember(record, "at", forgery, "aad");
    TagMismatchRefused(k, p, random, rt.stringify(forged), forged);
  }

  /** The tamper case of writing a text over `at`: text that does not decode
      to the tag, the empty text included, makes `get` fail in the decipher. */
  lemma TextTagRefused(k: Kruptein, p: Json, random: Bytes, forgery: string)
    requires ForgeryLaws(k) && k.flag
    requires k.Set(p, random).Ok?
    requires Some(k.crypto.value.fromText(k.encodeas, forgery)) != PiecesOf(k, p, random).sealed.at
    ensures k.Get(k.crypto.value.stringify(Assign(EnvelopeOf(k, p, random), "at", JStr(forgery))))
      == Err(CryptoFailure("decipher"))
  {
    EnvelopeIsRecord(k, p, random);
    ForgedTagRefused(k, p, random, JStr(forgery));
  }

  /** Outside AEAD mode no tag is stored, so where the configured cipher does
      produce one and its decipher accepts only sealings (an upper-case or
      empty name running a GCM cipher), `get(set(p))` fails in the decipher. */
  lemma UnflaggedAeadRoundTripFails(k: Kruptein, p: Json, random: Bytes)
    requires k.crypto.Some? && JsonRoundTrips(k.crypto.value) && TextRoundTrips(k.crypto.value, k.encodeas)
    requires TagExactlyWhen(k.crypto.value, k.algorithm, true) && AcceptsOnlySealed(k.crypto.value, k.algorithm)
    requires !k.flag
    requires k.Set(p, random).Ok?
    ensures k.Get(k.Set(p, random).value) == Err(CryptoFailure("decipher"))
  {
    var rt := k.crypto.value;
    var x := PiecesOf(k, p, random);
    var record := Record(x.hmac, x.sealed.ct, x.sealed.at, x.aad, x.iv);
    EnvelopeIsRecord(k, p, random);
    RecordMembers(x.hmac, x.sealed.ct, x.sealed.at, x.aad, x.iv);
    EnvelopeReceived(k, p, random);
    IvReadBack(k, p, random);
    assert k.TagFrom(rt, Member(record, "at")) == Ok(None);
    GetAfterMac(k, k.Set(p, random).value, record);
    if k.Decrypt(x.key, x.sealed.ct, x.iv, None, Member(record, "aad")).Ok? {
      assert false;
    }
  }

  /** `set` fails only where a primitive throws: once `init` has stored a
      key, with a non-negative IV size, an HMAC that accepts the hash and a
      cipher that seals everything (with a tag in AEAD mode), it succeeds. */
  lemma SetSucceeds(k: Kruptein, p: Json, random: Bytes)
    requires k.crypto.Some? && k.secret.Some? && k.ivSize >= 0
    requires HmacAccepts(k.crypto.value, k.hashing)
    requires SealsAlways(k.crypto.value, k.algorithm, k.flag)
    ensures k.Set(p, random).Ok?
  {
    var rt := k.crypto.value;
    var iv := k.Iv(k.ivSize, random).value;
    var key := k.secret.value;
    var text := rt.stringify(p);
    var aad := k.Aad(iv, key, text).value;
    assert k.Sealing(key, text, iv, aad).Some?;
    var sealed := k.Encrypt(key, text, iv, aad).value;
    assert k.Digest(key, sealed.ct).Ok?;
  }

  /** When PBKDF2 returns the 64 bytes it is asked for and the encoding does not
      shrink them, `_derive_key` yields exactly `key_size` bytes for any size
      from 0 to 64. */
  lemma DeriveKeyLength(k: Kruptein, secretText: string)
    requires k.crypto.Some? && Pbkdf2Length(k.crypto.value) && Utf8NotShorter(k.crypto.value, k.encodeas)
    requires 0 <= k.keySize <= StretchedLength
    requires k.Stretched(secretText).Ok?
    ensures k.DeriveKey(secretText).Ok? && |k.DeriveKey(secretText).value| == k.keySize
  {
    var rt := k.crypto.value;
    var stretched := k.Stretched(secretText).value;
    assert |stretched| == StretchedLength;
    assert |rt.fromText(Utf8, rt.toText(k.encodeas, stretched))| >= |stretched|;
  }

  /** Where the encoding round-trips, `_iv(size)` is the first `size` random
      bytes: all of them when exactly `size` were drawn, none when `size` is 0. */
  lemma IvIsRandomPrefix(k: Kruptein, size: int, random: Bytes)
    requires k.crypto.Some? && TextRoundTrips(k.crypto.value, k.encodeas) && size >= 0
    ensures k.Iv(size, random) == Ok(Slice(random, size))
    ensures |random| == size ==> k.Iv(size, random) == Ok(random)
    ensures size == 0 ==> k.Iv(size, random) == Ok([])
  {
    assert k.crypto.value.fromText(k.encodeas, k.crypto.value.toText(k.encodeas, random)) == random;
    if |random| == size {
      assert random[..size] == random;
    }
  }

  /** A name the AEAD flag accepts also passes `_matrix`'s case-insensitive
      test, so with no IV size given and no "aes"+"ecb" in the name, an AEAD
      instance uses a 12-byte IV. */
  lemma AeadFlagMeansTwelveByteIv(k: Kruptein, options: Options, rt: Runtime)
    requires options.algorithm.Some? && k.Configured(options, rt)
    requires k.flag && (options.ivSize.None? || options.ivSize == Some(0))
    requires !Matrix.AesWith(options.algorithm.value, "ecb")
    ensures k.algorithm == options.algorithm.value
    ensures k.ivSize == 12
  {
    var name := options.algorithm.value;
    assert name != "" by {
      assert !Contains("", "ccm") && !Contains("", "gcm") && !Contains("", "ocb");
    }
    if Contains(name, "ccm") {
      ContainsIgnoringCaseOfContains(name, "ccm");
    } else if Contains(name, "gcm") {
      ContainsIgnoringCaseOfContains(name, "gcm");
    } else {
      ContainsIgnoringCaseOfContains(name, "ocb");
    }
  }

  /** The flag test is case-sensitive but `_matrix`'s is not: "AES-128-GCM" is
      not flagged, so the envelope `set` builds has neither an `aad` nor an
      `at`, yet the instance gets the 12-byte GCM IV. */
  lemma UpperCaseGcmNotFlagged(k: Kruptein, options: Options, rt: Runtime, p: Json, random: Bytes)
    requires options.algorithm == Some("AES-128-GCM") && k.Configured(options, rt)
    requires options.ivSize.None?
    ensures !k.flag && k.ivSize == 12
    ensures k.Envelope(p, random).Ok? ==> Keys(k.Envelope(p, random).value) == ["hmac", "ct", "iv"]
  {
    Matrix.UpperCaseAes128Gcm();
    Matrix.UpperCaseGcmFolds();
    var name := "AES-128-GCM";
    if Contains(name, "ccm") {
      ContainsIgnoringCaseOfContains(name, "ccm");
    }
    if Contains(name, "ocb") {
      ContainsIgnoringCaseOfContains(name, "ocb");
    }
  }

  /** An empty algorithm name is falsy: the instance runs the default
      "aes-256-gcm", yet the flag, read from the empty name, is off and the
      envelope carries no `aad` and no `at`. */
  lemma EmptyAlgorithmNotFlagged(k: Kruptein, options: Options, rt: Runtime, p: Json, random: Bytes)
    requires options.algorithm == Some("") && k.Configured(options, rt)
    requires options.ivSize.None? && options.keySize.None?
    ensures !k.flag
    ensures k.Envelope(p, random).Ok? ==> Keys(k.Envelope(p, random).value) == ["hmac", "ct", "iv"]
    ensures k.algorithm == DefaultAlgorithm && k.ivSize == 12 && k.keySize == 32
  {
    assert !Contains("", "ccm") && !Contains("", "gcm") && !Contains("", "ocb");
    Matrix.Aes256Gcm();
  }
}
