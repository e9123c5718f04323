/** `_matrix` (lib/kruptein.js:169-191): the default authentication-tag, IV and
    key sizes for an algorithm name, decided by a chain of name tests in which a
    later test overwrites what an earlier one set. */
module Matrix {
  import opened Matching

  /** The tag size is in bits, the IV and key sizes in bytes. */
  datatype Sizes = Sizes(atSize: int, ivSize: int, keySize: int)

  /** `/ccm|ocb|gcm/i`: the name mentions an AEAD mode, in any case. */
  predicate MentionsAeadModeIgnoringCase(name: string) {
    ContainsIgnoringCase(name, "ccm") || ContainsIgnoringCase(name, "ocb") || ContainsIgnoringCase(name, "gcm")
  }

  /** `algo.match(/aes/) && algo.match(/word/)`, both case-sensitive. */
  predicate AesWith(name: string, word: string) {
    Contains(name, "aes") && Contains(name, word)
  }

  /** The rules run in source order on one record; each `if` that fires
      overwrites one field. The contract gives the value each field ends with:
      the last rule that fires for it wins. */
  function Matrix(name: string): (m: Sizes)
    ensures m.atSize == 128
    ensures m.ivSize ==
      if AesWith(name, "ecb") then 0
      else if MentionsAeadModeIgnoringCase(name) then 12
      else 16
    ensures m.keySize ==
      if AesWith(name, "xts") && Contains(name, "256") then 64
      else if AesWith(name, "xts") then 32
      else if AesWith(name, "128") then 16
      else if AesWith(name, "192") then 24
      else 32
  {
    var m0 := Sizes(128, 16, 32);
    var m1 := if MentionsAeadModeIgnoringCase(name) then m0.(ivSize := 12) else m0;
    var m2 := if AesWith(name, "192") then m1.(keySize := 24) else m1;
    var m3 := if AesWith(name, "128") then m2.(keySize := 16) else m2;
    var m4 := if AesWith(name, "ecb") then m3.(ivSize := 0) else m3;
    var m5 := if AesWith(name, "xts") then m4.(keySize := 32) else m4;
    var m6 := if AesWith(name, "xts") && Contains(name, "256") then m5.(keySize := 64) else m5;
    m6
  }

  /** An unknown name gets the base record: no error, no rejection. */
  lemma UnknownNameGetsBaseSizes(name: string)
    requires !Contains(name, "aes") && !MentionsAeadModeIgnoringCase(name)
    ensures Matrix(name) == Sizes(128, 16, 32)
  {
  }

  /** Well-known names. Each name's facts are asserted one by one so that
      each is evaluated on its own; the case-insensitive ones come first, in a
      lemma of their own. */
  lemma Aes128CbcModes()
    ensures !ContainsIgnoringCase("aes-128-cbc", "ccm")
    ensures !ContainsIgnoringCase("aes-128-cbc", "ocb")
    ensures !ContainsIgnoringCase("aes-128-cbc", "gcm")
  {
    assert !ContainsIgnoringCase("aes-128-cbc", "ccm");
    assert !ContainsIgnoringCase("aes-128-cbc", "ocb");
    assert !ContainsIgnoringCase("aes-128-cbc", "gcm");
  }

  lemma Aes128CbcWords()
    ensures Contains("aes-128-cbc", "aes")
    ensures !Contains("aes-128-cbc", "192")
    ensures Contains("aes-128-cbc", "128")
    ensures !Contains("aes-128-cbc", "ecb")
    ensures !Contains("aes-128-cbc", "xts")
  {
    assert Contains("aes-128-cbc", "aes");
    assert !Contains("aes-128-cbc", "192");
    assert Contains("aes-128-cbc", "128");
    assert !Contains("aes-128-cbc", "ecb");
    assert !Contains("aes-128-cbc", "xts");
  }

  lemma Aes128Cbc()
    ensures Matrix("aes-128-cbc") == Sizes(128, 16, 16)
  {
    Aes128CbcModes();
    Aes128CbcWords();
  }

  lemma Aes192CbcModes()
    ensures !ContainsIgnoringCase("aes-192-cbc", "ccm")
    ensures !ContainsIgnoringCase("aes-192-cbc", "ocb")
    ensures !ContainsIgnoringCase("aes-192-cbc", "gcm")
  {
    assert !ContainsIgnoringCase("aes-192-cbc", "ccm");
    assert !ContainsIgnoringCase("aes-192-cbc", "ocb");
    assert !ContainsIgnoringCase("aes-192-cbc", "gcm");
  }

  lemma Aes192CbcWords()
    ensures Contains("aes-192-cbc", "aes")
    ensures Contains("aes-192-cbc", "192")
    ensures !Contains("aes-192-cbc", "128")
    ensures !Contains("aes-192-cbc", "ecb")
    ensures !Contains("aes-192-cbc", "xts")
  {
    assert Contains("aes-192-cbc", "aes");
    assert Contains("aes-192-cbc", "192");
    assert !Contains("aes-192-cbc", "128");
    assert !Contains("aes-192-cbc", "ecb");
    assert !Contains("aes-192-cbc", "xts");
  }

  lemma Aes192Cbc()
    ensures Matrix("aes-192-cbc") == Sizes(128, 16, 24)
  {
    Aes192CbcModes();
    Aes192CbcWords();
  }

  lemma Aes256GcmModes()
    ensures !ContainsIgnoringCase("aes-256-gcm", "ccm")
    ensures !ContainsIgnoringCase("aes-256-gcm", "ocb")
    ensures ContainsIgnoringCase("aes-256-gcm", "gcm")
  {
    assert !ContainsIgnoringCase("aes-256-gcm", "ccm");
    assert !ContainsIgnoringCase("aes-256-gcm", "ocb");
    assert ContainsIgnoringCase("aes-256-gcm", "gcm");
  }

  lemma Aes256GcmWords()
    ensures Contains("aes-256-gcm", "aes")
    ensures !Contains("aes-256-gcm", "192")
    ensures !Contains("aes-256-gcm", "128")
    ensures !Contains("aes-256-gcm", "ecb")
    ensures !Contains("aes-256-gcm", "xts")
  {
    assert Contains("aes-256-gcm", "aes");
    assert !Contains("aes-256-gcm", "192");
    assert !Contains("aes-256-gcm", "128");
    assert !Contains("aes-256-gcm", "ecb");
    assert !Contains("aes-256-gcm", "xts");
  }

  lemma Aes256Gcm()
    ensures Matrix("aes-256-gcm") == Sizes(128, 12, 32)
  {
    Aes256GcmModes();
    Aes256GcmWords();
  }

  lemma Aes128EcbModes()
    ensures !ContainsIgnoringCase("aes-128-ecb", "ccm")
    ensures !ContainsIgnoringCase("aes-128-ecb", "ocb")
    ensures !ContainsIgnoringCase("aes-128-ecb", "gcm")
  {
    assert !ContainsIgnoringCase("aes-128-ecb", "ccm");
    assert !ContainsIgnoringCase("aes-128-ecb", "ocb");
    assert !ContainsIgnoringCase("aes-128-ecb", "gcm");
  }

  lemma Aes128EcbWords()
    ensures Contains("aes-128-ecb", "aes")
    ensures !Contains("aes-128-ecb", "192")
    ensures Contains("aes-128-ecb", "128")
    ensures Contains("aes-128-ecb", "ecb")
    ensures !Contains("aes-128-ecb", "xts")
  {
    assert Contains("aes-128-ecb", "aes");
    assert !Contains("aes-128-ecb", "192");
    assert Contains("aes-128-ecb", "128");
    assert Contains("aes-128-ecb", "ecb");
    assert !Contains("aes-128-ecb", "xts");
  }

  lemma Aes128Ecb()
    ensures Matrix("aes-128-ecb") == Sizes(128, 0, 16)
  {
    Aes128EcbModes();
    Aes128EcbWords();
  }

  lemma Aes128XtsModes()
    ensures !ContainsIgnoringCase("aes-128-xts", "ccm")
    ensures !ContainsIgnoringCase("aes-128-xts", "ocb")
    ensures !ContainsIgnoringCase("aes-128-xts", "gcm")
  {
    assert !ContainsIgnoringCase("aes-128-xts", "ccm");
    assert !ContainsIgnoringCase("aes-128-xts", "ocb");
    assert !ContainsIgnoringCase("aes-128-xts", "gcm");
  }

  lemma Aes128XtsWords()
    ensures Contains("aes-128-xts", "aes")
    ensures !Contains("aes-128-xts", "192")
    ensures Contains("aes-128-xts", "128")
    ensures !Contains("aes-128-xts", "ecb")
    ensures Contains("aes-128-xts", "xts")
    ensures !Contains("aes-128-xts", "256")
  {
    assert Contains("aes-128-xts", "aes");
    assert !Contains("aes-128-xts", "192");
    assert Contains("aes-128-xts", "128");
    assert !Contains("aes-128-xts", "ecb");
    assert Contains("aes-128-xts", "xts");
    assert !Contains("aes-128-xts", "256");
  }

  /** The XTS rule resets the key size that the "128" rule set before it. */
  lemma Aes128Xts()
    ensures Matrix("aes-128-xts") == Sizes(128, 16, 32)
  {
    Aes128XtsModes();
    Aes128XtsWords();
  }

  lemma Aes256XtsModes()
    ensures !ContainsIgnoringCase("aes-256-xts", "ccm")
    ensures !ContainsIgnoringCase("aes-256-xts", "ocb")
    ensures !ContainsIgnoringCase("aes-256-xts", "gcm")
  {
    assert !ContainsIgnoringCase("aes-256-xts", "ccm");
    assert !ContainsIgnoringCase("aes-256-xts", "ocb");
    assert !ContainsIgnoringCase("aes-256-xts", "gcm");
  }

  lemma Aes256XtsWords()
    ensures Contains("aes-256-xts", "aes")
    ensures !Contains("aes-256-xts", "192")
    ensures !Contains("aes-256-xts", "128")
    ensures !Contains("aes-256-xts", "ecb")
    ensures Contains("aes-256-xts", "xts")
    ensures Contains("aes-256-xts", "256")
  {
    assert Contains("aes-256-xts", "aes");
    assert !Contains("aes-256-xts", "192");
    assert !Contains("aes-256-xts", "128");
    assert !Contains("aes-256-xts", "ecb");
    assert Contains("aes-256-xts", "xts");
    assert Contains("aes-256-xts", "256");
  }

  lemma Aes256Xts()
    ensures Matrix("aes-256-xts") == Sizes(128, 16, 64)
  {
    Aes256XtsModes();
    Aes256XtsWords();
  }

  /** The AEAD test of `_matrix` ignores case, the other tests do not. */
  lemma UpperCaseGcmFolds()
    ensures ContainsIgnoringCase("AES-128-GCM", "gcm")
    ensures !ContainsIgnoringCase("AES-128-GCM", "ccm")
    ensures !ContainsIgnoringCase("AES-128-GCM", "ocb")
    ensures !Contains("AES-128-GCM", "gcm")
  {
    var n := "AES-128-GCM";
    assert ContainsIgnoringCase(n, "gcm");
    assert !ContainsIgnoringCase(n, "ccm");
    assert !ContainsIgnoringCase(n, "ocb");
  }

  /** So an upper-case name gets the 12-byte IV but none of the "aes" key sizes. */
  lemma UpperCaseAes128Gcm()
    ensures Matrix("AES-128-GCM") == Sizes(128, 12, 32)
  {
    var n := "AES-128-GCM";
    UpperCaseGcmFolds();
    assert !Contains(n, "aes");
  }
}
