/** What lib/kruptein.js calls but does not define: Node's `crypto` module and the
    `Buffer` and `JSON` built-ins. Each primitive is a field of type function, so
    the model says nothing about how it computes; the few facts the envelope's
    properties rest on are stated as laws (ghost predicates) that a lemma assumes
    explicitly. */
module Runtime {
  import opened Wrappers
  import opened Json

  newtype byte = x: int | 0 <= x < 256

  type Bytes = seq<byte>

  /** The arguments of `createCipheriv`/`createDecipheriv`: algorithm name, key,
      IV and the `authTagLength` option. */
  datatype CipherParams = CipherParams(algorithm: string, key: Bytes, iv: Bytes, authTagLength: int)

  /** A finished encryption: the ciphertext, and the tag `getAuthTag()` returns
      (`None` where it throws, that is for a cipher that is not AEAD). */
  datatype Sealed = Sealed(ct: Bytes, tag: Option<Bytes>)

  datatype Runtime = Runtime(
    /** `Buffer.from(text, encoding)` */
    fromText: (string, string) -> Bytes,
    /** `buffer.toString(encoding)` */
    toText: (string, Bytes) -> string,
    /** `JSON.stringify(value)` */
    stringify: Json -> string,
    /** `JSON.parse(text)`; `None` where it throws */
    parse: string -> Option<Json>,
    /** `createHash(name).update(data).digest()`; `None` for an unknown hash */
    hash: (string, Bytes) -> Option<Bytes>,
    /** `createHmac(name, key)` fed `data`, then read */
    hmac: (string, Bytes, Bytes) -> Option<Bytes>,
    /** `pbkdf2Sync(password, salt, iterations, length, digest)` */
    pbkdf2: (Bytes, Bytes, int, int, string) -> Option<Bytes>,
    /** `createCipheriv`, `setAAD` when AAD is given, `update`/`final`, and
        `getAuthTag`; `None` where any of the calls before `getAuthTag` throws */
    encrypt: (CipherParams, Option<Bytes>, Bytes) -> Option<Sealed>,
    /** `createDecipheriv`, `setAuthTag` and `setAAD` when given, `update`/`final`;
        `None` where any of them throws, e.g. when authentication fails */
    decrypt: (CipherParams, Option<Bytes>, Option<Bytes>, Bytes) -> Option<Bytes>
  )

  /** The name Buffer uses for its default text encoding. */
  const Utf8: string := "utf8"

  /** `buffer.slice(0, end)`: a negative end counts from the back, and the end
      is clamped to the buffer. */
  function Slice(b: Bytes, end: int): (r: Bytes)
    ensures |r| <= |b| && r == b[..|r|]
    ensures 0 <= end ==> |r| == if end <= |b| then end else |b|
    ensures end < 0 ==> |r| == if |b| + end >= 0 then |b| + end else 0
  {
    if end < 0 then (if |b| + end >= 0 then b[..|b| + end] else [])
    else if end <= |b| then b[..end]
    else b
  }

  /** What `JSON.stringify` makes of a Buffer (its `toJSON`). */
  function BufferJson(b: Bytes): Json {
    JObj([("type", JStr("Buffer")), ("data", JArr(seq(|b|, i requires 0 <= i < |b| => JNum(b[i] as int))))])
  }

  /** An array element as the byte Buffer stores: the element's Number value
      taken modulo 256. `true` is 1; `false`, `null`, objects and text are
      taken as 0 (see README for the text and one-element arrays whose Number
      value is not 0). */
  function ElementByte(v: Json): (r: byte)
    ensures v.JNum? ==> r as int == v.n % 256
    ensures v.JBool? ==> r == if v.b then 1 else 0
    ensures !v.JNum? && !v.JBool? ==> r == 0
  {
    match v
    case JNum(n) => (n % 256) as byte
    case JBool(b) => if b then 1 else 0
    case _ => 0
  }

  /** Array elements as bytes: Buffer converts every element, so this never
      fails. */
  function ArrayBytes(items: seq<Json>): (r: Bytes)
    ensures |r| == |items|
    ensures forall i :: 0 <= i < |items| ==> r[i] == ElementByte(items[i])
  {
    seq(|items|, i requires 0 <= i < |items| => ElementByte(items[i]))
  }

  /** `Buffer.from(v, encoding)` for a JSON value: text is decoded in the
      encoding, an array or the `data` array of a serialized Buffer gives one
      byte per element, and anything else (a number, a boolean, `null`, any
      other object) throws. */
  function BufferFrom(rt: Runtime, encoding: string, v: Json): (r: Option<Bytes>)
    ensures v.JStr? ==> r == Some(rt.fromText(encoding, v.s))
    ensures v.JArr? ==> r.Some? && |r.value| == |v.items|
    ensures v.JArr? ==> forall i :: 0 <= i < |v.items| ==> r.value[i] == ElementByte(v.items[i])
    ensures v.JNull? || v.JBool? || v.JNum? ==> r.None?
    ensures v.JObj? ==> (r.Some? <==> Member(v, "type") == Some(JStr("Buffer")) && Member(v, "data").Some? && Member(v, "data").value.JArr?)
  {
    match v
    case JStr(s) => Some(rt.fromText(encoding, s))
    case JArr(items) => Some(ArrayBytes(items))
    case JObj(_) =>
      if Member(v, "type") == Some(JStr("Buffer")) && Member(v, "data").Some? && Member(v, "data").value.JArr?
      then Some(ArrayBytes(Member(v, "data").value.items))
      else None
    case _ => None
  }

  /** An array of values that are not numbers still converts: `[true, null,
      "x", {}]` gives the bytes 1, 0, 0, 0. */
  lemma MixedArrayConverts(rt: Runtime, encoding: string)
    ensures BufferFrom(rt, encoding, JArr([JBool(true), JNull, JStr("x"), JObj([])])) == Some([1, 0, 0, 0])
  {
    var r := BufferFrom(rt, encoding, JArr([JBool(true), JNull, JStr("x"), JObj([])])).value;
    assert |r| == 4 && r[0] == 1 && r[1] == 0 && r[2] == 0 && r[3] == 0;
    assert r == [1, 0, 0, 0];
  }

  /** A Buffer survives `JSON.stringify` followed by `Buffer.from`. */
  lemma BufferJsonRoundTrip(rt: Runtime, encoding: string, b: Bytes)
    ensures BufferFrom(rt, encoding, BufferJson(b)) == Some(b)
  {
    var items := seq(|b|, i requires 0 <= i < |b| => JNum(b[i] as int));
    var v := BufferJson(b);
    assert "data"[0] != "type"[0];
    assert v.fields[1].0 != "type";
    assert v.fields[..1] == [("type", JStr("Buffer"))];
    assert Lookup(v.fields[..1], "type") == Some(JStr("Buffer"));
    assert Member(v, "type") == Some(JStr("Buffer"));
    assert Member(v, "data") == Some(JArr(items));
    assert ArrayBytes(items) == b;
  }

  // ---- Laws of the primitives ----

  /** `JSON.parse` reads back the tree of the text `JSON.stringify` wrote, and
      that text is never empty. */
  ghost predicate JsonRoundTrips(rt: Runtime) {
    forall v: Json :: rt.stringify(v) != "" && rt.parse(rt.stringify(v)) == Some(v)
  }

  /** Text in the given encoding decodes back to the bytes it encodes (true of
      'binary', 'hex' and 'base64'; not of 'utf8', which replaces invalid
      sequences), and the empty text is no bytes. */
  ghost predicate TextRoundTrips(rt: Runtime, encoding: string) {
    && rt.fromText(encoding, "") == []
    && forall b: Bytes :: rt.fromText(encoding, rt.toText(encoding, b)) == b
  }

  /** An HMAC is never empty. */
  ghost predicate HmacNonEmpty(rt: Runtime) {
    forall name: string, key: Bytes, data: Bytes ::
      rt.hmac(name, key, data).Some? ==> |rt.hmac(name, key, data).value| > 0
  }

  /** For the cipher the name selects, decryption with the key, IV, tag and
      AAD of an encryption inverts it. */
  ghost predicate DecryptInvertsEncrypt(rt: Runtime, algorithm: string) {
    forall p: CipherParams, aad: Option<Bytes>, pt: Bytes ::
      p.algorithm == algorithm && rt.encrypt(p, aad, pt).Some? ==>
        rt.decrypt(p, rt.encrypt(p, aad, pt).value.tag, aad, rt.encrypt(p, aad, pt).value.ct) == Some(pt)
  }

  /** The cipher the name selects yields a tag exactly when `aead` says so. */
  ghost predicate TagExactlyWhen(rt: Runtime, algorithm: string, aead: bool) {
    forall p: CipherParams, aad: Option<Bytes>, pt: Bytes ::
      p.algorithm == algorithm && rt.encrypt(p, aad, pt).Some? ==> (rt.encrypt(p, aad, pt).value.tag.Some? <==> aead)
  }

  /** The AAD bytes a cipher authenticates: none set reads as the empty AAD. */
  function AadOrEmpty(aad: Option<Bytes>): (r: Bytes)
    ensures aad.Some? ==> r == aad.value
    ensures aad.None? ==> r == []
  {
    if aad.Some? then aad.value else []
  }

  /** The decipher the name selects accepts only a sealing: whatever it opens
      under a tag and an AAD is a plaintext that the cipher, given the same key,
      IV and AAD, seals to exactly that ciphertext and that tag. */
  ghost predicate AcceptsOnlySealed(rt: Runtime, algorithm: string) {
    forall p: CipherParams, tag: Option<Bytes>, aad: Option<Bytes>, ct: Bytes ::
      p.algorithm == algorithm && rt.decrypt(p, tag, aad, ct).Some? ==>
        rt.encrypt(p, aad, rt.decrypt(p, tag, aad, ct).value) == Some(Sealed(ct, tag))
  }

  /** Under one key and IV, the ciphertext of the cipher the name selects
      determines the plaintext, and the tag binds the AAD: two sealings with the
      same ciphertext and the same tag were made under the same AAD bytes. The
      second half idealises a tag collision, which a real tag makes negligibly
      likely, as impossible. */
  ghost predicate SealBinds(rt: Runtime, algorithm: string) {
    forall p: CipherParams, aad1: Option<Bytes>, pt1: Bytes, aad2: Option<Bytes>, pt2: Bytes ::
      && p.algorithm == algorithm
      && rt.encrypt(p, aad1, pt1).Some? && rt.encrypt(p, aad2, pt2).Some?
      && rt.encrypt(p, aad1, pt1).value.ct == rt.encrypt(p, aad2, pt2).value.ct
      ==>
      && pt1 == pt2
      && (rt.encrypt(p, aad1, pt1).value.tag == rt.encrypt(p, aad2, pt2).value.tag ==> AadOrEmpty(aad1) == AadOrEmpty(aad2))
  }

  /** The HMAC primitive accepts the named hash for every key and message. */
  ghost predicate HmacAccepts(rt: Runtime, name: string) {
    forall key: Bytes, data: Bytes :: rt.hmac(name, key, data).Some?
  }

  /** The cipher the name selects seals every plaintext under every key, IV and
      AAD, and yields a tag whenever `aead` says so. */
  ghost predicate SealsAlways(rt: Runtime, algorithm: string, aead: bool) {
    forall p: CipherParams, aad: Option<Bytes>, pt: Bytes ::
      p.algorithm == algorithm ==>
        rt.encrypt(p, aad, pt).Some? && (aead ==> rt.encrypt(p, aad, pt).value.tag.Some?)
  }

  /** `pbkdf2Sync` returns as many bytes as it is asked for. */
  ghost predicate Pbkdf2Length(rt: Runtime) {
    forall password: Bytes, salt: Bytes, iterations: int, length: int, digest: string ::
      rt.pbkdf2(password, salt, iterations, length, digest).Some? ==>
        |rt.pbkdf2(password, salt, iterations, length, digest).value| == length
  }

  /** Writing bytes as text in the given encoding and reading that text back as
      UTF-8 gives at least as many bytes (true of 'binary', 'hex' and 'base64'). */
  ghost predicate Utf8NotShorter(rt: Runtime, encoding: string) {
    forall b: Bytes :: |rt.fromText(Utf8, rt.toText(encoding, b))| >= |b|
  }

  // ---- A cipher of the AEAD shape ----

  /** A runtime whose cipher behaves as GCM does where it matters here: the
      ciphertext is the plaintext whatever the AAD, the tag is computed from
      the AAD, and the decipher opens a ciphertext exactly under that tag. Its
      other primitives are placeholders. */
  function GcmShapedRuntime(): Runtime {
    Runtime(
      (encoding: string, text: string) => [],
      (encoding: string, b: Bytes) => "",
      (v: Json) => "",
      (text: string) => None,
      (name: string, data: Bytes) => None,
      (name: string, key: Bytes, data: Bytes) => None,
      (password: Bytes, salt: Bytes, iterations: int, length: int, digest: string) => None,
      (p: CipherParams, aad: Option<Bytes>, pt: Bytes) => Some(Sealed(pt, Some([1 as byte] + AadOrEmpty(aad)))),
      (p: CipherParams, tag: Option<Bytes>, aad: Option<Bytes>, ct: Bytes) =>
        if tag == Some([1 as byte] + AadOrEmpty(aad)) then Some(ct) else None)
  }

  /** The cipher laws are met by a cipher whose ciphertext ignores the AAD and
      that decrypts what it encrypts, so they do not rule out GCM's shape. */
  lemma GcmShapedRuntimeMeetsLaws(algorithm: string)
    ensures DecryptInvertsEncrypt(GcmShapedRuntime(), algorithm)
    ensures TagExactlyWhen(GcmShapedRuntime(), algorithm, true)
    ensures AcceptsOnlySealed(GcmShapedRuntime(), algorithm)
    ensures SealBinds(GcmShapedRuntime(), algorithm)
    ensures SealsAlways(GcmShapedRuntime(), algorithm, true)
  {
    var rt := GcmShapedRuntime();
    forall p: CipherParams, aad1: Option<Bytes>, pt1: Bytes, aad2: Option<Bytes>, pt2: Bytes |
      && p.algorithm == algorithm
      && rt.encrypt(p, aad1, pt1).Some? && rt.encrypt(p, aad2, pt2).Some?
      && rt.encrypt(p, aad1, pt1).value.ct == rt.encrypt(p, aad2, pt2).value.ct
      && rt.encrypt(p, aad1, pt1).value.tag == rt.encrypt(p, aad2, pt2).value.tag
      ensures AadOrEmpty(aad1) == AadOrEmpty(aad2)
    {
      var t1 := [1 as byte] + AadOrEmpty(aad1);
      var t2 := [1 as byte] + AadOrEmpty(aad2);
      assert t1 == t2;
      assert t1[1..] == AadOrEmpty(aad1) && t2[1..] == AadOrEmpty(aad2);
    }
  }
}
