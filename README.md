# kruptein, modelled in Dafny

kruptein (`lib/kruptein.js`) is a small authenticated-encryption envelope for
Node. `init(options)` takes a secret and picks an algorithm, a hash and a text
encoding. It then resolves the tag, IV and key sizes, either from explicit
options or from a table keyed on the algorithm name (`_matrix`), and derives a
key from the secret with PBKDF2. `set(plaintext)` does the following:

- It draws a random IV.
- In AEAD mode (a name containing `ccm`, `gcm` or `ocb`), it computes an AAD
  string. The AAD is the HMAC of the plaintext's JSON text under the IV joined
  with the key.
- It encrypts the JSON text.
- It takes an outer HMAC of the ciphertext text.
- It returns the JSON of `{hmac, ct, iv}`, or of `{hmac, ct, at, aad, iv}` in
  AEAD mode.

`get(text)` parses the record and recomputes the outer HMAC. On a mismatch it
refuses the record as tampered with, and only after that check does it decrypt.

The model has these modules:

- `Matching`: the literal-word regular-expression tests that the code applies
  to algorithm names, with and without the `i` flag.
- `Matrix`: `_matrix` as an ordered chain of overwriting rules. Its contract
  gives the value on which each field ends.
- `Json`: parsed JSON values, property reads (the last duplicate key wins) and
  property assignment.
- `Runtime`: what the file calls but does not define. This covers Node's
  `crypto` functions, the `JSON` built-in and the `Buffer` built-in. They are
  bundled into one value of function-typed fields, so the model makes no
  assumption about how they compute. The facts some proofs need are stated as
  named laws (ghost predicates) that those lemmas take as hypotheses:
  - `JSON.parse` inverts `JSON.stringify`.
  - An encoding round-trips bytes.
  - Decryption inverts encryption.
  - A decipher opens only what the cipher would seal to that ciphertext and
    tag. Under one key and IV the ciphertext determines the plaintext, and
    the tag binds the AAD. A tag collision is idealised as impossible.
    `GcmShapedRuntimeMeetsLaws` shows these laws hold for a cipher shaped like
    GCM, whose ciphertext does not depend on the AAD.
  - PBKDF2 returns the length it is asked for.
  - For `SetSucceeds` only: the HMAC accepts the hash, and the cipher seals
    every text.
- `Kruptein`: the class. It has the fields `init` assigns. `Init` is a method
  that changes them. `set`, `get` and the helpers read them and are modelled
  as functions.
- `Properties`: the round trip, the tamper and forgery refusals, and the facts
  about key derivation, the IV and configuration.

The random bytes that `randomBytes` returns are a parameter of `Set`.
`require('crypto')`, together with the `JSON` and `Buffer` built-ins, is a
parameter of `Init`.

The model follows the code where it departs from what an envelope of this
kind is usually taken to promise:

- A missing `algorithm` option does not fall back to the default. Line 11 calls
  `options.algorithm.match` before line 13 applies the default, so `init`
  throws a TypeError. By then `this.crypto` has been assigned. An empty name
  `""` gives the flag `false` but the algorithm `aes-256-gcm`
  (`EmptyAlgorithmNotFlagged`).
- The AEAD flag test is case-sensitive, while `_matrix`'s test is not
  (`UpperCaseGcmNotFlagged`).
- In both of these cases the envelope carries no `at` and no `aad`, so
  `_decrypt` never calls `setAuthTag`. When the cipher that runs produces a
  tag and its decipher opens only what it sealed, as GCM's does,
  `get(set(p))` therefore fails in the decipher (`UnflaggedAeadRoundTripFails`).
- `get(set(p))` is not `p`. It is the JSON text of `p` after that text has been
  taken as bytes in the configured encoding and read back as UTF-8
  (`RoundTrip`). With the default encoding `binary`, that gives back the JSON
  text exactly when the text survives this conversion, which holds for ASCII
  text (`RoundTripExactIff`).
- The HMAC comparison is the ordinary `!=` and not a constant-time comparison.
- The code has no explicit check of the sizes. An unknown hash or a bad
  cipher configuration surfaces as whatever the `crypto` call throws
  (`CryptoFailure`). An empty secret is refused by `init` itself before any
  key derivation (`MissingSecret`).
- A failed decryption, including an AEAD authentication failure, is whatever
  `decipher.final` throws (`CryptoFailure("decipher")`).

## Model

| member | source | states |
|---|---|---|
| Matching.ContainsIff | lib/kruptein.js:11 | The character-by-character scan behind `match` with a one-word pattern finds the word exactly when it occurs at some position (both directions, with or without case folding). |
| Matching.ContainsIgnoringCaseOfContains | lib/kruptein.js:172 | A name matched by a case-sensitive test also matches it with the `i` flag, as in the ccm/ocb/gcm test of `_matrix`. |
| Matrix.Matrix | lib/kruptein.js:169-191 | The tag size is always 128. The IV size is 0 for aes+ecb, otherwise 12 for a ccm/ocb/gcm name in any case, otherwise 16. The key size is 64 for aes+xts+256, 32 for aes+xts, 16 for aes+128, 24 for aes+192, otherwise 32. Later rules win. |
| Matrix.UnknownNameGetsBaseSizes | lib/kruptein.js:169-191 | A name without `aes` and without an AEAD mode gets the base record {128, 16, 32}. No error is raised. |
| Matrix.Aes128Cbc | lib/kruptein.js:178-179 | "aes-128-cbc" gets {128, 16, 16}. |
| Matrix.Aes192Cbc | lib/kruptein.js:175-176 | "aes-192-cbc" gets {128, 16, 24}. |
| Matrix.Aes256Gcm | lib/kruptein.js:172-173 | The default "aes-256-gcm" gets {128, 12, 32}. |
| Matrix.Aes128Ecb | lib/kruptein.js:181-182 | "aes-128-ecb" gets a 0-byte IV and a 16-byte key. |
| Matrix.Aes128Xts | lib/kruptein.js:184-185 | For "aes-128-xts", the xts rule resets the key size that the 128 rule set to 16 back to 32. |
| Matrix.Aes256Xts | lib/kruptein.js:187-188 | "aes-256-xts" gets a 64-byte key. |
| Matrix.UpperCaseGcmFolds | lib/kruptein.js:172 | "AES-128-GCM" passes the `i`-flagged gcm test but not the case-sensitive one. |
| Matrix.UpperCaseAes128Gcm | lib/kruptein.js:172-179 | "AES-128-GCM" gets the 12-byte IV but a 32-byte key, because the `/aes/` tests are case-sensitive. |
| Runtime.Slice | lib/kruptein.js:157 | `slice(0, end)` returns a prefix. Its length is `end` clamped to the buffer, or for a negative end the buffer's length plus `end`, down to 0. |
| Runtime.BufferJsonRoundTrip | lib/kruptein.js:62-66 | A Buffer written by `JSON.stringify` as `{type, data}` is turned back into the same bytes by `Buffer.from`. |
| Runtime.BufferFrom | lib/kruptein.js:62-66 | `Buffer.from` decodes text in the encoding. An array, or the `data` array of a `{type: 'Buffer'}` object, gives one byte per element, so an array never fails. A number, a boolean, `null` or any other object throws. |
| Runtime.MixedArrayConverts | lib/kruptein.js:62-66 | An array whose elements are not numbers still converts, for example `[true, null, "x", {}]` to the bytes 1, 0, 0, 0. So a forged `at`, `iv` or `aad` of that kind reaches the decipher. |
| Kruptein.RecordKeys | lib/kruptein.js:39-41 | The record literal has the keys hmac, ct, at, aad, iv when there is a tag and an AAD, otherwise hmac, ct, iv, in that order. |
| Kruptein.RecordMembers | lib/kruptein.js:39-41 | Each property of the record reads back the value it was built from. Outside AEAD mode the record has no `at` and no `aad`. |
| Kruptein.Kruptein.constructor | lib/kruptein.js:3 | A new instance has no `crypto` and no key. |
| Kruptein.Kruptein.Init | lib/kruptein.js:5-22 | A missing or empty secret throws MissingSecret and changes nothing. A missing algorithm throws a TypeError after `crypto` is set, with every other field unchanged. Otherwise the flag is the case-sensitive ccm/gcm/ocb test on the given name. Each of algorithm, hashing and encodeas is the option or its default. Each size is a non-zero option or the `_matrix` value. The key becomes the derived key, or stays as it was when derivation fails. |
| Kruptein.Kruptein.Stretched | lib/kruptein.js:148-155 | The stretched key is PBKDF2 of the secret's UTF-8 bytes, with a salt of at most the first 16 bytes of the secret's hash, 10000 iterations, 64 bytes and the configured hash. It succeeds exactly when hashing and PBKDF2 succeed. |
| Kruptein.Kruptein.DeriveKey | lib/kruptein.js:145-158 | The key is the stretched bytes, written in `encodeas`, read back as UTF-8 and cut to `key_size` bytes. So it is a prefix of that text's bytes, at most `key_size` long. It succeeds exactly when hashing and PBKDF2 succeed. |
| Kruptein.Kruptein.Iv | lib/kruptein.js:161-166 | `_iv` succeeds exactly for a non-negative size and returns at most that many bytes. |
| Kruptein.Kruptein.Digest | lib/kruptein.js:72-78 | `_digest` succeeds exactly when the HMAC primitive does. For an encoding that round-trips, the returned text decodes to the HMAC of the UTF-8 data under the key. |
| Kruptein.Kruptein.Encrypt | lib/kruptein.js:81-110 | `_encrypt` succeeds exactly when the cipher seals the text, and in AEAD mode only if the cipher also yields a tag. It sets the AAD only when the AAD is non-empty text. The ct text is the ciphertext in `encodeas`. A tag is returned exactly in AEAD mode, and it is the cipher's tag. |
| Kruptein.Kruptein.DecipherAad | lib/kruptein.js:128-136 | Outside AEAD mode `_decrypt` sets no AAD and cannot fail here. In AEAD mode it sets the record's `aad` as a Buffer, and fails with a TypeError exactly when that field is missing or does not convert. |
| Kruptein.Kruptein.Decrypt | lib/kruptein.js:113-142 | `_decrypt` succeeds exactly when the AAD converts (in AEAD mode) and the decipher primitive accepts the ciphertext, tag and AAD. |
| Kruptein.Kruptein.Aad | lib/kruptein.js:30-32 | Outside AEAD mode there is no AAD. In AEAD mode the AAD is the HMAC of the JSON text under the IV joined with the key, and computing it fails exactly when that HMAC fails. |
| Kruptein.Kruptein.Envelope | lib/kruptein.js:25-41 | The record has the keys {hmac, ct, at, aad, iv} in AEAD mode and {hmac, ct, iv} otherwise. Its hmac is the digest of its ct under the key. Its iv is the drawn IV. In AEAD mode its aad is the HMAC of the plaintext's JSON under the IV joined with the key. |
| Kruptein.Kruptein.Set | lib/kruptein.js:43 | `set` fails exactly when building the envelope fails, and otherwise returns the envelope's JSON text. |
| Kruptein.Kruptein.Get | lib/kruptein.js:47-69 | `get` succeeds only on a record whose hmac is the digest of its ct. A record whose hmac differs is refused with Tampered, whatever the decipher primitive would do. |
| Properties.EnvelopeReceived | lib/kruptein.js:50-60 | The text `set` returns parses back to its record, and that record's MAC matches. |
| Properties.AadNotEmpty | lib/kruptein.js:30-32 | In AEAD mode the AAD text is non-empty, because an HMAC is never empty. So the `if (aad)` of `_encrypt` sets it. |
| Properties.AadReadBack | lib/kruptein.js:128-136 | `get` hands the decipher the same AAD bytes that `set` handed the cipher, and none outside AEAD mode. |
| Properties.IvReadBack | lib/kruptein.js:65-66 | `get` recovers the drawn IV from the record. |
| Properties.TagReadBack | lib/kruptein.js:62-63 | `get` recovers the cipher's own tag from the record, and no tag outside AEAD mode. |
| Properties.CiphertextReadBack | lib/kruptein.js:98-99 | The ct text that `set` wrote decodes back to the cipher's output. |
| Properties.RoundTrip | lib/kruptein.js:25-69 | Under the laws of the primitives, `get(set(p))` is the JSON text of `p` taken as bytes in `encodeas` and read back as UTF-8. |
| Properties.RoundTripExactIff | lib/kruptein.js:34-35 | `get(set(p))` equals the JSON text of `p` if and only if that text survives the `encodeas`/UTF-8 conversion. |
| Properties.ForgedHmacRefused | lib/kruptein.js:57-60 | An envelope whose hmac is replaced by any other text is refused with Tampered. |
| Properties.ForgedCiphertextRefused | lib/kruptein.js:57-60 | An envelope whose ct is replaced by text with a different digest is refused with Tampered. |
| Properties.ForgeryPassesMac | lib/kruptein.js:57-60 | Overwriting a field other than hmac, ct and iv leaves the MAC check passing and the IV readable. |
| Properties.DecryptOnlyAuthentic | lib/kruptein.js:113-142 | Whatever tag and AAD the decipher opens the envelope's ct under, `_decrypt` returns the plaintext that `set` sealed. Under the envelope's own tag it opens only with the envelope's AAD bytes. Under those AAD bytes it opens only with the envelope's own tag. |
| Properties.ForgedAadDecryptFails | lib/kruptein.js:128-139 | `_decrypt` of the envelope's ct under its own tag, with AAD text that decodes to other bytes, fails in the decipher. |
| Properties.ForgedAadRefused | lib/kruptein.js:128-139 | In AEAD mode, an envelope whose aad decodes to other bytes passes the MAC check but fails to decrypt. |
| Properties.ForgedTagDecryptFails | lib/kruptein.js:120-139 | `_decrypt` of the envelope's ct under its own AAD and another tag, or no tag, fails in the decipher. |
| Properties.TagMismatchRefused | lib/kruptein.js:57-69 | In AEAD mode, any text `get` receives whose record keeps the envelope's hmac, ct, iv and aad but whose `at` does not convert back to the tag is refused. This covers a forged, falsy or deleted `at`. An `at` that does not convert gives a TypeError, and one that converts to another tag or to none fails in the decipher. The MAC check passes in every case. |
| Properties.ForgedTagRefused | lib/kruptein.js:57-69 | In AEAD mode, an envelope whose `at` is overwritten by any JSON value that does not convert back to the tag passes the MAC check and is then refused. A value that does not convert gives a TypeError, and one that does fails in the decipher. |
| Properties.TextTagRefused | lib/kruptein.js:62-63 | In AEAD mode, an envelope whose `at` is overwritten by text that does not decode to the tag fails in the decipher. The empty text is included, and test/test.js:149 writes such a text. |
| Properties.UnflaggedAeadRoundTripFails | lib/kruptein.js:39-66 | Outside AEAD mode no tag is stored. If the cipher that runs produces a tag and its decipher opens only sealings, `get(set(p))` fails in the decipher. |
| Properties.SetSucceeds | lib/kruptein.js:25-43 | `set` fails only where a primitive throws. Once `init` has stored a key, it succeeds when the IV size is non-negative, the HMAC accepts the hash, and the cipher seals every text (with a tag in AEAD mode). |
| Runtime.GcmShapedRuntimeMeetsLaws | lib/kruptein.js:81-142 | A cipher whose ciphertext ignores the AAD and whose decipher checks a tag computed from the AAD meets every cipher law the round trip and the forgery lemmas assume. |
| Properties.DeriveKeyLength | lib/kruptein.js:155-157 | When PBKDF2 returns 64 bytes and the encoding does not shrink them, the key has exactly `key_size` bytes, for any size from 0 to 64. |
| Properties.IvIsRandomPrefix | lib/kruptein.js:161-166 | For an encoding that round-trips, the IV is the first `size` random bytes: all of them when exactly `size` were drawn, none when `size` is 0. |
| Properties.AeadFlagMeansTwelveByteIv | lib/kruptein.js:11-18 | A flagged instance with no IV size option and no aes+ecb in the name uses a 12-byte IV. |
| Properties.UpperCaseGcmNotFlagged | lib/kruptein.js:11-18 | "AES-128-GCM" is not flagged as AEAD, so the envelope has only the keys hmac, ct and iv, with no `aad` and no `at`. It still gets the 12-byte GCM IV. |
| Properties.EmptyAlgorithmNotFlagged | lib/kruptein.js:11-19 | An empty algorithm name leaves the flag off, so the envelope has only the keys hmac, ct and iv. The instance still runs the default aes-256-gcm with a 12-byte IV and a 32-byte key. |

## Left out

- Node's `crypto` functions, `JSON.stringify`/`JSON.parse` and `Buffer`'s text codecs are not modelled internally. They are uninterpreted fields of `Runtime`, and lemmas state the laws they rely on as hypotheses.
- Randomness: the bytes `randomBytes` returns are a parameter. The limit `randomBytes` puts on very large sizes is not modelled.
- Kruptein.Kruptein.Get: a non-string `hmac` field is treated as a mismatch. JavaScript's loose `!=` would coerce, for example, a one-element array holding the right text to equal it.
- Kruptein.Kruptein.Get: only text arguments are modelled. An object passed to `get` directly (line 54 keeps a non-JSON argument as is) is not.
- Kruptein.Kruptein.Init: options are typed. A non-string secret or algorithm, and non-integer sizes, are not modelled.
- JSON numbers are integers. Floats, `undefined`, functions and `toJSON` hooks other than Buffer's are not modelled, so `set(undefined)` is not either.
- Runtime.BufferFrom: an object with a `length` property is not taken as array-like. It is treated as an error unless it is a serialized Buffer.
- Runtime.BufferFrom: an array element is converted through its Number value modulo 256. Text elements and array elements are taken as 0. That is exact for text that is not numeric, for objects, and for arrays other than one-element ones. A numeric text such as `"12"`, or a one-element array such as `[5]`, would give its number in Node.
- Kruptein.Kruptein.Init: Buffer's codecs are total here, so an unknown `encodeas` does not make `init` fail. In the source, the `toString` of line 157 throws on it after the sizes are set. The same holds for `set` and `get`: `setEncoding` and `update` (lines 74 and 98) throw on it, and so does `Buffer.from` of a text field (lines 63 and 66).
- Kruptein.Kruptein.Decrypt: error ordering inside the primitives is not modelled. A TypeError from converting a missing AAD is reported before any error `createDecipheriv` or `setAuthTag` would raise first.
- The error labels inside `TypeError` and `CryptoFailure` name the failing step. They do not reproduce Node's messages.
- Node's rules for `authTagLength` are part of the cipher primitive.
- Properties.RoundTrip: the CCM family is not covered. The `plaintextLength` that `setAAD` receives is not modelled. `_encrypt` passes the UTF-8 length of the JSON text (line 91), not the length of the bytes it encrypts. `_decrypt` passes the UTF-8 length of the ct text (line 131), not the ciphertext's byte count. CCM requires this value to equal the message length, so in the source a CCM round trip fails whenever those lengths differ. The decryption law `DecryptInvertsEncrypt` is stated per algorithm, so for GCM and OCB, which ignore the value, the round trip stays covered.
- `JsonRoundTrips` reads back the whole tree of a JSON text, including objects with duplicate keys or keys out of insertion order. Property reads (`Member`) let the last duplicate win, as `JSON.parse` does. The model does not re-order integer-like keys as JavaScript objects do, because nothing in `set` or `get` re-serializes a parsed object.
- Case folding is ASCII-only. That is exact for the letter-and-digit patterns the code uses.
- The singleton export (line 195) and Node's module caching are not modelled. The model uses an ordinary class instance.
- Timing: the HMAC comparison is ordinary equality, and nothing about constant-time behaviour is modelled.
- test/index.js is not part of this model. It exercises a different, callback-based API.
