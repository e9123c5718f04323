/** The `kruptein` class of lib/kruptein.js: `init` configures an instance and
    derives its key, `set` seals a value into a JSON envelope and `get` checks
    the envelope's HMAC and decrypts it. */
module Kruptein {
  import opened Wrappers
  import opened Matching
  import opened Json
  import opened Runtime
  import Matrix

  const DefaultAlgorithm: string := "aes-256-gcm"
  const DefaultHashing: string := "sha512"
  const DefaultEncoding: string := "binary"
  /** Bytes of the secret's hash used as the PBKDF2 salt. */
  const SaltLength: int := 16
  const Iterations: int := 10000
  /** Bytes PBKDF2 is asked for before the key is cut to size. */
  const StretchedLength: int := 64

  /** What the class throws. */
  datatype Error =
    | MissingSecret               // Error("Must supply a secret!")
    | Tampered                    // 'Encrypted session was tampered with!'
    | TypeError(operation: string) // a JavaScript TypeError from the named operation
    | CryptoFailure(operation: string) // an exception from the named crypto call

  /** The `options` object given to `init`; `None` is a property left undefined. */
  datatype Options = Options(
    secret: Option<string>,
    algorithm: Option<string>,
    hashing: Option<string>,
    encodeas: Option<string>,
    atSize: Option<int>,
    ivSize: Option<int>,
    keySize: Option<int>)

  /** `!options.secret` is false: a non-empty secret was given. */
  predicate SecretGiven(options: Options) {
    options.secret.Some? && options.secret.value != ""
  }

  /** `options.x || fallback` for a text option: undefined and "" are falsy. */
  function TextOr(o: Option<string>, fallback: string): string {
    if o.Some? && o.value != "" then o.value else fallback
  }

  /** `options.x || fallback` for a size option: undefined and 0 are falsy. */
  function SizeOr(o: Option<int>, fallback: int): int {
    if o.Some? && o.value != 0 then o.value else fallback
  }

  /** `/ccm|gcm|ocb/` on the algorithm name, case-sensitive. */
  predicate IsAeadName(name: string) {
    Contains(name, "ccm") || Contains(name, "gcm") || Contains(name, "ocb")
  }

  /** The `{ct, at}` object `_encrypt` returns. */
  datatype Encrypted = Encrypted(ct: string, at: Option<Bytes>)

  /** The HMAC key of the AAD, `iv + this.secret`: both Buffers are turned into
      UTF-8 text, joined, and the text is taken as UTF-8 again by `createHmac`. */
  function AadKey(rt: Runtime, iv: Bytes, key: Bytes): Bytes {
    rt.fromText(Utf8, rt.toText(Utf8, iv) + rt.toText(Utf8, key))
  }

  /** What `get` holds after lines 50-55: `undefined` for an empty argument, the
      parsed value, or the argument itself when it is not JSON. */
  function Received(rt: Runtime, text: string): Option<Json> {
    if text == "" then None
    else match rt.parse(text)
      case Some(v) => Some(v)
      case None => Some(JStr(text))
  }

  /** The object literal of lines 39-41: `{hmac, ct, at, aad, iv}` when there
      is a tag and an AAD, `{hmac, ct, iv}` otherwise. */
  function Record(hmac: string, ct: string, at: Option<Bytes>, aad: Option<string>, iv: Bytes): Json {
    if at.Some? && aad.Some? then
      JObj([("hmac", JStr(hmac)), ("ct", JStr(ct)), ("at", BufferJson(at.value)),
            ("aad", JStr(aad.value)), ("iv", BufferJson(iv))])
    else
      JObj([("hmac", JStr(hmac)), ("ct", JStr(ct)), ("iv", BufferJson(iv))])
  }

  /** The record's property names, in the order the literal writes them. */
  lemma RecordKeys(hmac: string, ct: string, at: Option<Bytes>, aad: Option<string>, iv: Bytes)
    ensures Keys(Record(hmac, ct, at, aad, iv)) ==
      if at.Some? && aad.Some? then ["hmac", "ct", "at", "aad", "iv"] else ["hmac", "ct", "iv"]
  {
  }

  /** The `hmac`, `ct` and `iv` properties of the record read back the values
      they were built from. */
  lemma CommonMembers(hmac: string, ct: string, at: Option<Bytes>, aad: Option<string>, iv: Bytes)
    ensures Member(Record(hmac, ct, at, aad, iv), "hmac") == Some(JStr(hmac))
    ensures Member(Record(hmac, ct, at, aad, iv), "ct") == Some(JStr(ct))
    ensures Member(Record(hmac, ct, at, aad, iv), "iv") == Some(BufferJson(iv))
  {
    var f := Record(hmac, ct, at, aad, iv).fields;
    assert "hmac"[0] != "ct"[0] && "hmac"[0] != "at"[0] && "hmac"[0] != "aad"[0] && "hmac"[0] != "iv"[0];
    assert "ct"[0] != "at"[0] && "ct"[0] != "aad"[0] && "ct"[0] != "iv"[0];
    LookupLast(f, "hmac", 0);
    LookupLast(f, "ct", 1);
    LookupLast(f, "iv", |f| - 1);
  }

  /** With a tag and an AAD, the `at` and `aad` properties read them back. */
  lemma AeadMembers(hmac: string, ct: string, at: Bytes, aad: string, iv: Bytes)
    ensures Member(Record(hmac, ct, Some(at), Some(aad), iv), "at") == Some(BufferJson(at))
    ensures Member(Record(hmac, ct, Some(at), Some(aad), iv), "aad") == Some(JStr(aad))
  {
    var f := Record(hmac, ct, Some(at), Some(aad), iv).fields;
    assert "at"[0] != "iv"[0] && "aad"[0] != "iv"[0] && "at"[1] != "aad"[1];
    LookupLast(f, "at", 2);
    LookupLast(f, "aad", 3);
  }

  /** Without them, the record has no `at` and no `aad` property. */
  lemma PlainMembers(hmac: string, ct: string, at: Option<Bytes>, aad: Option<string>, iv: Bytes)
    requires !(at.Some? && aad.Some?)
    ensures Member(Record(hmac, ct, at, aad, iv), "at") == None
    ensures Member(Record(hmac, ct, at, aad, iv), "aad") == None
  {
    var f := Record(hmac, ct, at, aad, iv).fields;
    assert "hmac"[0] != "at"[0] && "ct"[0] != "at"[0] && "iv"[0] != "at"[0];
    assert "hmac"[0] != "aad"[0] && "ct"[0] != "aad"[0] && "iv"[0] != "aad"[0];
    assert forall i :: 0 <= i < |f| ==> f[i].0 in {"hmac", "ct", "iv"};
  }

  /** Each property of the record reads back the value it was built from. */
  lemma RecordMembers(hmac: string, ct: string, at: Option<Bytes>, aad: Option<string>, iv: Bytes)
    ensures Member(Record(hmac, ct, at, aad, iv), "hmac") == Some(JStr(hmac))
    ensures Member(Record(hmac, ct, at, aad, iv), "ct") == Some(JStr(ct))
    ensures Member(Record(hmac, ct, at, aad, iv), "iv") == Some(BufferJson(iv))
    ensures at.Some? && aad.Some? ==>
      && Member(Record(hmac, ct, at, aad, iv), "at") == Some(BufferJson(at.value))
      && Member(Record(hmac, ct, at, aad, iv), "aad") == Some(JStr(aad.value))
    ensures !(at.Some? && aad.Some?) ==>
      && Member(Record(hmac, ct, at, aad, iv), "at") == None
      && Member(Record(hmac, ct, at, aad, iv), "aad") == None
  {
    CommonMembers(hmac, ct, at, aad, iv);
    if at.Some? && aad.Some? {
      AeadMembers(hmac, ct, at.value, aad.value, iv);
    } else {
      PlainMembers(hmac, ct, at, aad, iv);
    }
  }

  class Kruptein {
    /** `this.crypto`, with the JSON and Buffer built-ins; `None` before `init`. */
    var crypto: Option<Runtime>
    /** Whether the algorithm is treated as AEAD. */
    var flag: bool
    var algorithm: string
    var hashing: string
    var encodeas: string
    /** Tag size in bits, IV and key sizes in bytes. */
    var atSize: int
    var ivSize: int
    var keySize: int
    /** The derived key (`this.secret`); `None` until an `init` derives one. */
    var secret: Option<Bytes>

    /** A fresh instance: no field is defined yet. */
    constructor ()
      ensures crypto.None? && secret.None?
    {
      crypto := None;
      flag := false;
      algorithm := "";
      hashing := "";
      encodeas := "";
      atSize := 0;
      ivSize := 0;
      keySize := 0;
      secret := None;
    }

    /** The fields lines 9-19 of `init` assign, for the given options. */
    ghost predicate Configured(options: Options, rt: Runtime)
      requires options.algorithm.Some?
      reads this
    {
      && crypto == Some(rt)
      && flag == IsAeadName(options.algorithm.value)
      && algorithm == TextOr(options.algorithm, DefaultAlgorithm)
      && hashing == TextOr(options.hashing, DefaultHashing)
      && encodeas == TextOr(options.encodeas, DefaultEncoding)
      && atSize == SizeOr(options.atSize, Matrix.Matrix(algorithm).atSize)
      && ivSize == SizeOr(options.ivSize, Matrix.Matrix(algorithm).ivSize)
      && keySize == SizeOr(options.keySize, Matrix.Matrix(algorithm).keySize)
    }

    /** `init(options)`, with `rt` standing for `require('crypto')`. A missing
        secret throws before anything is assigned. The AEAD flag is read from
        `options.algorithm` before the default applies, so a missing algorithm
        throws once `crypto` is set. A key-derivation failure leaves the previous
        key in place. */
    method Init(options: Options, rt: Runtime) returns (r: Outcome<Error>)
      modifies this
      ensures !SecretGiven(options) ==> r == Fail(MissingSecret) && unchanged(this)
      ensures SecretGiven(options) && options.algorithm.None? ==>
        && r == Fail(TypeError("options.algorithm.match"))
        && crypto == Some(rt)
        && flag == old(flag) && algorithm == old(algorithm) && hashing == old(hashing)
        && encodeas == old(encodeas) && atSize == old(atSize) && ivSize == old(ivSize)
        && keySize == old(keySize) && secret == old(secret)
      ensures SecretGiven(options) && options.algorithm.Some? ==>
        && Configured(options, rt)
        && var key := DeriveKey(options.secret.value);
        && (key.Ok? ==> r == Pass && secret == Some(key.value))
        && (key.Err? ==> r == Fail(key.error) && secret == old(secret))
    {
      if !SecretGiven(options) {
        return Fail(MissingSecret);
      }
      crypto := Some(rt);
      if options.algorithm.None? {
        return Fail(TypeError("options.algorithm.match"));
      }
      flag := IsAeadName(options.algorithm.value);
      algorithm := TextOr(options.algorithm, DefaultAlgorithm);
      hashing := TextOr(options.hashing, DefaultHashing);
      encodeas := TextOr(options.encodeas, DefaultEncoding);
      var defaults := Matrix.Matrix(algorithm);
      atSize := SizeOr(options.atSize, defaults.atSize);
      ivSize := SizeOr(options.ivSize, defaults.ivSize);
      keySize := SizeOr(options.keySize, defaults.keySize);
      var key := DeriveKey(options.secret.value);
      if key.Err? {
        return Fail(key.error);
      }
      secret := Some(key.value);
      r := Pass;
    }

    function Crypto(): (r: Result<Runtime, Error>)
      reads this
      ensures r.Ok? <==> crypto.Some?
      ensures r.Ok? ==> r.value == crypto.value
    {
      if crypto.Some? then Ok(crypto.value) else Err(TypeError("this.crypto"))
    }

    function Key(): (r: Result<Bytes, Error>)
      reads this
      ensures r.Ok? <==> secret.Some?
      ensures r.Ok? ==> r.value == secret.value
    {
      if secret.Some? then Ok(secret.value) else Err(TypeError("this.secret"))
    }

    /** The cipher arguments for a key and an IV. */
    function Params(key: Bytes, iv: Bytes): CipherParams
      reads this
    {
      CipherParams(algorithm, key, iv, atSize)
    }

    /** The PBKDF2 output `_derive_key` starts from (lines 148-155): the salt is
        the first 16 bytes of the secret's hash. */
    function Stretched(secretText: string): (r: Result<Bytes, Error>)
      reads this
      ensures r.Ok? <==>
        && crypto.Some?
        && var password := crypto.value.fromText(Utf8, secretText);
        && crypto.value.hash(hashing, password).Some?
        && crypto.value.pbkdf2(password, Slice(crypto.value.hash(hashing, password).value, SaltLength),
                               Iterations, StretchedLength, hashing).Some?
      ensures r.Ok? ==>
        var password := crypto.value.fromText(Utf8, secretText);
        var salt := Slice(crypto.value.hash(hashing, password).value, SaltLength);
        && |salt| <= SaltLength
        && r.value == crypto.value.pbkdf2(password, salt, Iterations, StretchedLength, hashing).value
    {
      var rt :- Crypto();
      var password := rt.fromText(Utf8, secretText);
      var digest :- rt.hash(hashing, password).ToResult(CryptoFailure("createHash"));
      rt.pbkdf2(password, Slice(digest, SaltLength), Iterations, StretchedLength, hashing)
        .ToResult(CryptoFailure("pbkdf2Sync"))
    }

    /** `_derive_key(secret)`: the stretched key written as text in `encodeas`,
        read back as UTF-8 and cut to `keySize` bytes. */
    function DeriveKey(secretText: string): (r: Result<Bytes, Error>)
      reads this
      ensures r.Ok? <==> Stretched(secretText).Ok?
      ensures r.Ok? ==> var text := crypto.value.fromText(Utf8, crypto.value.toText(encodeas, Stretched(secretText).value));
        |r.value| <= |text| && r.value == text[..|r.value|]
      ensures r.Ok? && keySize >= 0 ==> |r.value| <= keySize
      ensures r.Ok? ==> r.value == Slice(crypto.value.fromText(Utf8, crypto.value.toText(encodeas, Stretched(secretText).value)), keySize)
    {
      var stretched :- Stretched(secretText);
      var rt := crypto.value;
      Ok(Slice(rt.fromText(Utf8, rt.toText(encodeas, stretched)), keySize))
    }

    /** `_iv(size)`, with `random` standing for what `randomBytes(size)`
        returned: the bytes go through text in `encodeas` and are cut to `size`.
        A negative size makes `randomBytes` throw. */
    function Iv(size: int, random: Bytes): (r: Result<Bytes, Error>)
      reads this
      ensures r.Ok? <==> crypto.Some? && size >= 0
      ensures r.Ok? ==> |r.value| <= size
    {
      var rt :- Crypto();
      if size < 0 then Err(CryptoFailure("randomBytes"))
      else Ok(Slice(rt.fromText(encodeas, rt.toText(encodeas, random)), size))
    }

    /** `_digest(key, data)`: the HMAC of the UTF-8 bytes of `data` under `key`
        with the configured hash, as text in `encodeas`. */
    function Digest(key: Bytes, data: string): (r: Result<string, Error>)
      reads this
      ensures r.Ok? <==> crypto.Some? && crypto.value.hmac(hashing, key, crypto.value.fromText(Utf8, data)).Some?
      ensures r.Ok? && TextRoundTrips(crypto.value, encodeas) ==>
        crypto.value.fromText(encodeas, r.value) == crypto.value.hmac(hashing, key, crypto.value.fromText(Utf8, data)).value
    {
      var rt :- Crypto();
      var mac :- rt.hmac(hashing, key, rt.fromText(Utf8, data)).ToResult(CryptoFailure("createHmac"));
      Ok(rt.toText(encodeas, mac))
    }

    /** The AAD bytes `_encrypt` hands `setAAD`: only a non-empty text is set. */
    function AadInput(aad: Option<string>): (r: Option<Bytes>)
      requires crypto.Some?
      reads this
      ensures r.Some? <==> aad.Some? && aad.value != ""
    {
      if aad.Some? && aad.value != "" then Some(crypto.value.fromText(encodeas, aad.value)) else None
    }

    /** What the cipher returns for `_encrypt`'s arguments: the text is taken
        as bytes in `encodeas`. */
    function Sealing(key: Bytes, pt: string, iv: Bytes, aad: Option<string>): Option<Sealed>
      requires crypto.Some?
      reads this
    {
      crypto.value.encrypt(Params(key, iv), AadInput(aad), crypto.value.fromText(encodeas, pt))
    }

    /** `_encrypt(key, pt, ..., iv, aad)`: AAD is set only when it is non-empty
        text, and the tag is collected only in AEAD mode, where `getAuthTag`
        throws for a cipher that has none. */
    function Encrypt(key: Bytes, pt: string, iv: Bytes, aad: Option<string>): (r: Result<Encrypted, Error>)
      reads this
      ensures r.Ok? <==>
        crypto.Some? && Sealing(key, pt, iv, aad).Some? && (flag ==> Sealing(key, pt, iv, aad).value.tag.Some?)
      ensures r.Ok? ==> (r.value.at.Some? <==> flag)
      ensures r.Ok? ==>
        var sealed := Sealing(key, pt, iv, aad).value;
        && r.value.ct == crypto.value.toText(encodeas, sealed.ct)
        && (flag ==> r.value.at == sealed.tag)
    {
      var rt :- Crypto();
      var sealed :- Sealing(key, pt, iv, aad).ToResult(CryptoFailure("cipher"));
      if flag && sealed.tag.None? then Err(CryptoFailure("getAuthTag"))
      else Ok(Encrypted(rt.toText(encodeas, sealed.ct), if flag then sealed.tag else None))
    }

    /** The AAD `_decrypt` sets: none unless in AEAD mode, and there the record's
        `aad` field must convert to a Buffer. */
    function DecipherAad(rt: Runtime, aad: Option<Json>): (r: Result<Option<Bytes>, Error>)
      reads this
      ensures !flag ==> r == Ok(None)
      ensures flag ==> (r.Ok? <==> aad.Some? && BufferFrom(rt, encodeas, aad.value).Some?)
      ensures flag && r.Ok? ==> r.value == BufferFrom(rt, encodeas, aad.value)
    {
      if !flag then Ok(None)
      else if aad.None? then Err(TypeError("Buffer.from"))
      else match BufferFrom(rt, encodeas, aad.value)
        case Some(b) => Ok(Some(b))
        case None => Err(TypeError("Buffer.from"))
    }

    /** `_decrypt(key, ct, ..., iv, at, aad)`: the tag is set when there is one,
        the AAD in AEAD mode; the plaintext bytes are read as UTF-8 text. Any
        failure of the cipher, an authentication failure among them, is an
        error and gives no text. */
    function Decrypt(key: Bytes, ct: string, iv: Bytes, tag: Option<Bytes>, aad: Option<Json>): (r: Result<string, Error>)
      reads this
      ensures r.Ok? <==>
        && crypto.Some?
        && DecipherAad(crypto.value, aad).Ok?
        && crypto.value.decrypt(Params(key, iv), tag, DecipherAad(crypto.value, aad).value,
                                crypto.value.fromText(encodeas, ct)).Some?
    {
      var rt :- Crypto();
      var aadBytes :- DecipherAad(rt, aad);
      var pt :- rt.decrypt(Params(key, iv), tag, aadBytes, rt.fromText(encodeas, ct)).ToResult(CryptoFailure("decipher"));
      Ok(rt.toText(Utf8, pt))
    }

    /** The record's `hmac` field is the HMAC of its `ct` field under the key. */
    ghost predicate MacMatches(record: Json)
      reads this
    {
      && secret.Some?
      && Member(record, "ct").Some? && Member(record, "ct").value.JStr?
      && Digest(secret.value, Member(record, "ct").value.s).Ok?
      && Member(record, "hmac") == Some(JStr(Digest(secret.value, Member(record, "ct").value.s).value))
    }

    /** The record's `ct` field can be digested, and its `hmac` field is not
        that digest. */
    ghost predicate MacRefuted(record: Json)
      reads this
    {
      && secret.Some?
      && Member(record, "ct").Some? && Member(record, "ct").value.JStr?
      && Digest(secret.value, Member(record, "ct").value.s).Ok?
      && Member(record, "hmac") != Some(JStr(Digest(secret.value, Member(record, "ct").value.s).value))
    }

    /** The record's `aad` field is the HMAC, under the IV joined with the key,
        of the plaintext's JSON text. */
    ghost predicate AadMatches(record: Json, plaintext: Json)
      reads this
    {
      && crypto.Some? && secret.Some?
      && Member(record, "iv").Some?
      && BufferFrom(crypto.value, encodeas, Member(record, "iv").value).Some?
      && var iv := BufferFrom(crypto.value, encodeas, Member(record, "iv").value).value;
      && var aad := Digest(AadKey(crypto.value, iv, secret.value), crypto.value.stringify(plaintext));
      && aad.Ok?
      && Member(record, "aad") == Some(JStr(aad.value))
    }

    /** The AAD `set` computes in AEAD mode, and `None` (`false`) otherwise. */
    function Aad(iv: Bytes, key: Bytes, text: string): (r: Result<Option<string>, Error>)
      reads this
      ensures !flag ==> r == Ok(None)
      ensures flag ==> (r.Ok? <==> crypto.Some? && Digest(AadKey(crypto.value, iv, key), text).Ok?)
      ensures flag && r.Ok? ==> r.value == Some(Digest(AadKey(crypto.value, iv, key), text).value)
    {
      if !flag then Ok(None)
      else
        var rt :- Crypto();
        var aad :- Digest(AadKey(rt, iv, key), text);
        Ok(Some(aad))
    }

    /** The object `set` builds (lines 28-41), before serializing it: in AEAD
        mode `{hmac, ct, at, aad, iv}`, otherwise `{hmac, ct, iv}`. The `hmac`
        authenticates `ct`, and in AEAD mode `aad` binds the plaintext to the IV
        and the key. */
    function Envelope(plaintext: Json, random: Bytes): (r: Result<Json, Error>)
      reads this
      ensures r.Ok? ==> crypto.Some? && secret.Some?
      ensures r.Ok? ==> Keys(r.value) == if flag then ["hmac", "ct", "at", "aad", "iv"] else ["hmac", "ct", "iv"]
      ensures r.Ok? ==> MacMatches(r.value)
      ensures r.Ok? ==> Iv(ivSize, random).Ok? && Member(r.value, "iv") == Some(BufferJson(Iv(ivSize, random).value))
      ensures r.Ok? && flag ==> AadMatches(r.value, plaintext)
    {
      var iv :- Iv(ivSize, random);
      var rt := crypto.value;
      var key :- Key();
      var text := rt.stringify(plaintext);
      var aad :- Aad(iv, key, text);
      var sealed :- Encrypt(key, text, iv, aad);
      var hmac :- Digest(key, sealed.ct);
      RecordKeys(hmac, sealed.ct, sealed.at, aad, iv);
      RecordMembers(hmac, sealed.ct, sealed.at, aad, iv);
      BufferJsonRoundTrip(rt, encodeas, iv);
      Ok(Record(hmac, sealed.ct, sealed.at, aad, iv))
    }

    /** `set(plaintext)`: the envelope as JSON text. */
    function Set(plaintext: Json, random: Bytes): (r: Result<string, Error>)
      reads this
      ensures r.Ok? <==> Envelope(plaintext, random).Ok?
      ensures r.Ok? ==> r.value == crypto.value.stringify(Envelope(plaintext, random).value)
    {
      var record :- Envelope(plaintext, random);
      Ok(crypto.value.stringify(record))
    }

    /** Lines 62-63 of `get`: a truthy `at` field becomes a Buffer. */
    function TagFrom(rt: Runtime, at: Option<Json>): Result<Option<Bytes>, Error>
      reads this
    {
      if !Truthy(at) then Ok(None)
      else match BufferFrom(rt, encodeas, at.value)
        case Some(b) => Ok(Some(b))
        case None => Err(TypeError("Buffer.from"))
    }

    /** `Buffer.from(ct.iv, encodeas)`, which throws for an undefined field. */
    function IvFrom(rt: Runtime, iv: Option<Json>): Result<Bytes, Error>
      reads this
    {
      if iv.None? then Err(TypeError("Buffer.from"))
      else BufferFrom(rt, encodeas, iv.value).ToResult(TypeError("Buffer.from"))
    }

    /** `get(ciphertext)`: parse, check the HMAC of `ct`, and only then decrypt.
        It succeeds only on a record whose HMAC matches, and a record whose HMAC
        does not match is refused as tampered with. */
    function Get(text: string): (r: Result<string, Error>)
      reads this
      ensures r.Ok? ==> crypto.Some? && Received(crypto.value, text).Some? && MacMatches(Received(crypto.value, text).value)
      ensures crypto.Some? && Received(crypto.value, text).Some? && MacRefuted(Received(crypto.value, text).value) ==>
        r == Err(Tampered)
    {
      if text == "" then Err(TypeError("ct.ct"))
      else
        var rt :- Crypto();
        var received := Received(rt, text);
        if received.value.JNull? then Err(TypeError("ct.ct"))
        else
          var record := received.value;
          var ct := Member(record, "ct");
          var key :- Key();
          if ct.None? || !ct.value.JStr? then Err(TypeError("hmac.write"))
          else
            var hmac :- Digest(key, ct.value.s);
            if Member(record, "hmac") != Some(JStr(hmac)) then Err(Tampered)
            else
              var tag :- TagFrom(rt, Member(record, "at"));
              var iv :- IvFrom(rt, Member(record, "iv"));
              Decrypt(key, ct.value.s, iv, tag, Member(record, "aad"))
    }
  }
}
