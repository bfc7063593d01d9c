/** The WebAuthn assertion verifier: the challenge encoding, the authenticatorData layout and the flag gates. */
module WebAuthn {
  import opened Wrappers
  import opened Bytes

  // ---------------------------------------------------------------- unpadded URL-safe base64

  /** The six-bit groups of a byte string; a last group is filled up with zero bits. */
  function Sextets(b: bytes): (s: seq<nat>)
    ensures forall i :: 0 <= i < |s| ==> s[i] < 64
  {
    if |b| == 0 then []
    else if |b| == 1 then [b[0] / 4, b[0] % 4 * 16]
    else if |b| == 2 then [b[0] / 4, b[0] % 4 * 16 + b[1] / 16, b[1] % 16 * 4]
    else [b[0] / 4, b[0] % 4 * 16 + b[1] / 16, b[1] % 16 * 4 + b[2] / 64, b[2] % 64] + Sextets(b[3..])
  }

  /** The bytes six-bit groups stand for, spare bits dropped. */
  ghost function Unsextets(s: seq<nat>): seq<int> {
    if |s| < 2 then []
    else if |s| == 2 then [s[0] * 4 + s[1] / 16]
    else if |s| == 3 then [s[0] * 4 + s[1] / 16, s[1] % 16 * 16 + s[2] / 4]
    else [s[0] * 4 + s[1] / 16, s[1] % 16 * 16 + s[2] / 4, s[2] % 4 * 64 + s[3]] + Unsextets(s[4..])
  }

  /** The alphabet of section 5 of RFC 4648. */
  function Symbol(i: nat): byte
    requires i < 64
  {
    if i < 26 then 65 + i            // A to Z
    else if i < 52 then 97 + i - 26  // a to z
    else if i < 62 then 48 + i - 52  // 0 to 9
    else if i == 62 then 45          // -
    else 95                          // _
  }

  function UrlSafeNoPad(b: bytes): (text: bytes)
    ensures |text| == |Sextets(b)|
  {
    var s := Sextets(b);
    seq(|s|, i requires 0 <= i < |s| => Symbol(s[i]))
  }

  lemma SymbolInjective(i: nat, j: nat)
    requires i < 64 && j < 64 && Symbol(i) == Symbol(j)
    ensures i == j
  {
  }

  lemma {:induction false} SextetsRoundTrip(b: bytes)
    ensures Unsextets(Sextets(b)) == b
  {
    if |b| >= 3 {
      SextetsRoundTrip(b[3..]);
      var s := Sextets(b);
      assert s[4..] == Sextets(b[3..]);
      assert b == [b[0], b[1], b[2]] + b[3..];
    }
  }

  /** The encoding tells all byte strings apart, whatever their lengths modulo three. */
  lemma UrlSafeNoPadInjective(a: bytes, b: bytes)
    requires UrlSafeNoPad(a) == UrlSafeNoPad(b)
    ensures a == b
  {
    var s, t := Sextets(a), Sextets(b);
    forall i | 0 <= i < |s| ensures s[i] == t[i] {
      assert UrlSafeNoPad(a)[i] == UrlSafeNoPad(b)[i];
      SymbolInjective(s[i], t[i]);
    }
    assert s == t;
    SextetsRoundTrip(a);
    SextetsRoundTrip(b);
  }

  // ---------------------------------------------------------------- the verifier

  datatype ClientData = ClientData(typ: bytes, challenge: bytes, origin: bytes, crossOrigin: Option<bool>,
                                   topOrigin: Option<bytes>)

  datatype Assertion = Assertion(authenticatorData: bytes, clientDataJson: bytes, signature: bytes)

  datatype Details = Details(signCount: nat, userPresent: bool, userVerified: bool, backupEligible: bool,
                             backupState: bool)

  /** JSON parsing, SHA-256 and P-256 with low-S enforcement. */
  datatype Backend = Backend(parse: bytes -> Option<ClientData>, sha256: bytes -> bytes,
                             verifyP256: (bytes, bytes, bytes) -> bool)

  /** What the caller expects of an assertion. */
  datatype Expected = Expected(challenge: bytes, publicKey: bytes, origin: bytes, rpId: bytes, requireUv: bool)

  const FLAG_USER_PRESENT: nat := 0x01
  const FLAG_USER_VERIFIED: nat := 0x04
  const FLAG_BACKUP_ELIGIBLE: nat := 0x08
  const FLAG_BACKUP_STATE: nat := 0x10

  /** Whether the bit with value `flag` is set. */
  predicate HasFlag(flags: byte, flag: nat)
    requires flag > 0
  {
    flags / flag % 2 == 1
  }

  predicate Verify(lib: Backend, a: Assertion, e: Expected) {
    && lib.parse(a.clientDataJson).Some?
    && var cd := lib.parse(a.clientDataJson).value;
    && cd.typ == Ascii("webauthn.get")
    && cd.origin == e.origin
    && cd.crossOrigin != Some(true) && cd.topOrigin.None?
    && cd.challenge == UrlSafeNoPad(e.challenge)
    && |a.authenticatorData| >= 37
    && a.authenticatorData[..32] == lib.sha256(e.rpId)
    && HasFlag(a.authenticatorData[32], FLAG_USER_PRESENT)
    && (e.requireUv ==> HasFlag(a.authenticatorData[32], FLAG_USER_VERIFIED))
    && lib.verifyP256(e.publicKey, a.authenticatorData + lib.sha256(a.clientDataJson), a.signature)
  }

  function VerifyDetails(lib: Backend, a: Assertion, e: Expected): (r: Option<Details>)
    ensures r.Some? <==> Verify(lib, a, e)
    ensures r.Some? ==> r.value.userPresent && (e.requireUv ==> r.value.userVerified)
    ensures r.Some? ==> |a.authenticatorData| >= 37 && BigEndian(r.value.signCount, 4) == a.authenticatorData[33..37]
  {
    if !Verify(lib, a, e) then None
    else
      BigEndianOfValue(a.authenticatorData[33..37]);
      var flags := a.authenticatorData[32];
      Some(Details(
             Value(a.authenticatorData[33..37]),
             HasFlag(flags, FLAG_USER_PRESENT),
             HasFlag(flags, FLAG_USER_VERIFIED),
             HasFlag(flags, FLAG_BACKUP_ELIGIBLE),
             HasFlag(flags, FLAG_BACKUP_STATE)))
  }

  /** An assertion accepted twice, for whatever the callers expected, was accepted for the same challenge and
      origin, and for the same relying party unless two names with one hash are exhibited. */
  lemma AssertionBindsExpectations(lib: Backend, a: Assertion, e: Expected, f: Expected)
    requires Verify(lib, a, e) && Verify(lib, a, f)
    ensures e.challenge == f.challenge && e.origin == f.origin
    ensures e.rpId == f.rpId || Collision(lib.sha256, e.rpId, f.rpId)
  {
    UrlSafeNoPadInjective(e.challenge, f.challenge);
  }

  /** Requiring user verification accepts exactly the assertions accepted without it that carry the flag. */
  lemma UserVerificationGate(lib: Backend, a: Assertion, e: Expected)
    ensures Verify(lib, a, e.(requireUv := true))
       <==> (var r := VerifyDetails(lib, a, e.(requireUv := false));
             r.Some? && r.value.userVerified)
  {
  }

  // ---------------------------------------------------------------- the authenticatorData layout

  /** A bit below the rest of a number. */
  function Push(b: bool, rest: nat): nat { (if b then 1 else 0) + 2 * rest }

  /** The flags byte of given details; `low` is its reserved bit 1 and `high` the three bits above the backup flags. */
  function FlagsByte(d: Details, low: bool, high: nat): (f: nat)
    requires high < 8
    ensures f < 256
  {
    Push(d.userPresent, Push(low, Push(d.userVerified, Push(d.backupEligible, Push(d.backupState, high)))))
  }

  /** Relying-party hash, flags, counter, and whatever extensions follow. */
  function AuthenticatorData(rpIdHash: bytes, d: Details, low: bool, high: nat, extensions: bytes): bytes
    requires high < 8
  {
    rpIdHash + ([FlagsByte(d, low, high)] + (BigEndian(d.signCount, 4) + extensions))
  }

  lemma PushReadsBack(b: bool, rest: nat)
    ensures Push(b, rest) / 2 == rest && (Push(b, rest) % 2 == 1 <==> b)
  {
  }

  lemma PushCovers(n: nat)
    ensures Push(n % 2 == 1, n / 2) == n
  {
  }

  lemma Halves(f: nat)
    ensures f / 4 == f / 2 / 2 && f / 8 == f / 4 / 2 && f / 16 == f / 8 / 2 && f / 32 == f / 16 / 2
  {
  }

  lemma FlagsReadBack(d: Details, low: bool, high: nat)
    requires high < 8
    ensures
      var f := FlagsByte(d, low, high);
      && HasFlag(f, FLAG_USER_PRESENT) == d.userPresent && HasFlag(f, FLAG_USER_VERIFIED) == d.userVerified
      && HasFlag(f, FLAG_BACKUP_ELIGIBLE) == d.backupEligible && HasFlag(f, FLAG_BACKUP_STATE) == d.backupState
  {
    var f4 := Push(d.backupState, high);
    var f3 := Push(d.backupEligible, f4);
    var f2 := Push(d.userVerified, f3);
    var f1 := Push(low, f2);
    PushReadsBack(d.userPresent, f1);
    PushReadsBack(low, f2);
    PushReadsBack(d.userVerified, f3);
    PushReadsBack(d.backupEligible, f4);
    PushReadsBack(d.backupState, high);
    Halves(Push(d.userPresent, f1));
  }

  lemma LayoutReadBack(rpIdHash: bytes, d: Details, low: bool, high: nat, extensions: bytes)
    requires high < 8 && |rpIdHash| == 32 && d.signCount < 0x1_0000_0000
    ensures
      var data := AuthenticatorData(rpIdHash, d, low, high, extensions);
      && |data| >= 37 && data[..32] == rpIdHash && data[32] == FlagsByte(d, low, high)
      && Value(data[33..37]) == d.signCount
  {
    var data := AuthenticatorData(rpIdHash, d, low, high, extensions);
    assert data[33..37] == BigEndian(d.signCount, 4);
    PowFour();
    ValueOfBigEndian(d.signCount, 4);
  }

  /** What the client data must say, whoever signed it. */
  predicate ClientDataMatches(cd: ClientData, e: Expected) {
    && cd.typ == Ascii("webauthn.get") && cd.origin == e.origin
    && cd.crossOrigin != Some(true) && cd.topOrigin.None?
    && cd.challenge == UrlSafeNoPad(e.challenge)
  }

  /** An assertion laid out field by field is accepted exactly when its client data matches, the relying party is the
      expected one, the user was present and, where required, verified, and the signature verifies under the expected
      key over the data followed by the digest of the client data; and then the details are the ones laid out. */
  lemma LaidOutAssertion(lib: Backend, rpIdHash: bytes, d: Details, low: bool, high: nat, extensions: bytes,
                         json: bytes, signature: bytes, e: Expected)
    requires high < 8 && |rpIdHash| == 32 && d.signCount < 0x1_0000_0000
    ensures
      var data := AuthenticatorData(rpIdHash, d, low, high, extensions);
      var r := VerifyDetails(lib, Assertion(data, json, signature), e);
      && (r.Some? <==>
            && lib.parse(json).Some? && ClientDataMatches(lib.parse(json).value, e)
            && rpIdHash == lib.sha256(e.rpId) && d.userPresent && (e.requireUv ==> d.userVerified)
            && lib.verifyP256(e.publicKey, data + lib.sha256(json), signature))
      && (r.Some? ==> r.value == d)
  {
    FlagsReadBack(d, low, high);
    LayoutReadBack(rpIdHash, d, low, high, extensions);
  }

  lemma FlagsAreLaidOut(f: byte, d: Details)
    requires d.userPresent == HasFlag(f, FLAG_USER_PRESENT) && d.userVerified == HasFlag(f, FLAG_USER_VERIFIED)
    requires d.backupEligible == HasFlag(f, FLAG_BACKUP_ELIGIBLE) && d.backupState == HasFlag(f, FLAG_BACKUP_STATE)
    ensures f / 32 < 8 && FlagsByte(d, HasFlag(f, 2), f / 32) == f
  {
    Halves(f);
    PushCovers(f);
    PushCovers(f / 2);
    PushCovers(f / 4);
    PushCovers(f / 8);
    PushCovers(f / 16);
  }

  /** Every authenticatorData of at least 37 bytes is laid out that way, so the lemma above speaks of every assertion
      that can be accepted. */
  lemma AcceptedIsLaidOut(lib: Backend, a: Assertion, e: Expected)
    returns (d: Details, low: bool, high: nat, extensions: bytes)
    requires VerifyDetails(lib, a, e).Some?
    ensures d == VerifyDetails(lib, a, e).value && high < 8 && d.signCount < 0x1_0000_0000
    ensures a.authenticatorData == AuthenticatorData(lib.sha256(e.rpId), d, low, high, extensions)
  {
    var data := a.authenticatorData;
    var f := data[32];
    d, low, high, extensions := VerifyDetails(lib, a, e).value, HasFlag(f, 2), f / 32, data[37..];
    FlagsAreLaidOut(f, d);
    BigEndianOfValue(data[33..37]);
    PowFour();
    assert data == data[..32] + ([f] + (data[33..37] + data[37..]));
  }

  // ---------------------------------------------------------------- the signature

  /** A verifier that accepts nothing but one triple of key, message and signature. */
  function OnlyAccepts(lib: Backend, key: bytes, message: bytes, signature: bytes): Backend {
    lib.(verifyP256 := (k, m, s) => k == key && m == message && s == signature)
  }

  ghost predicate DigestOf(lib: Backend, b: bytes) { |lib.sha256(b)| == 32 }

  /** Acceptance rests on the signature: where only one triple verifies, any two accepted assertions carry that
      signature under that key, the same authenticatorData, and the same client data or two with one digest. */
  lemma OneSignatureOneAssertion(lib: Backend, key: bytes, message: bytes, signature: bytes, a: Assertion, e: Expected,
                                 b: Assertion, f: Expected)
    requires forall x :: DigestOf(lib, x)
    requires Verify(OnlyAccepts(lib, key, message, signature), a, e)
    requires Verify(OnlyAccepts(lib, key, message, signature), b, f)
    ensures e.publicKey == f.publicKey == key && a.signature == b.signature == signature
    ensures a.authenticatorData == b.authenticatorData
    ensures a.clientDataJson == b.clientDataJson || Collision(lib.sha256, a.clientDataJson, b.clientDataJson)
  {
    var x, y := lib.sha256(a.clientDataJson), lib.sha256(b.clientDataJson);
    assert DigestOf(lib, a.clientDataJson) && DigestOf(lib, b.clientDataJson);
    assert a.authenticatorData + x == b.authenticatorData + y;
    assert |a.authenticatorData| == |b.authenticatorData|;
    PrefixesAgree(a.authenticatorData, x, b.authenticatorData, y);
  }

  /** Without a signature that verifies over this data and client data under the expected key, nothing is accepted. */
  lemma UnsignedIsRefused(lib: Backend, a: Assertion, e: Expected)
    requires !lib.verifyP256(e.publicKey, a.authenticatorData + lib.sha256(a.clientDataJson), a.signature)
    ensures VerifyDetails(lib, a, e).None?
  {
    if VerifyDetails(lib, a, e).Some? {
      var d, low, high, extensions := AcceptedIsLaidOut(lib, a, e);
      LaidOutDigest(lib, a, e);
      LaidOutAssertion(lib, lib.sha256(e.rpId), d, low, high, extensions, a.clientDataJson, a.signature, e);
    }
  }

  lemma LaidOutDigest(lib: Backend, a: Assertion, e: Expected)
    requires VerifyDetails(lib, a, e).Some?
    ensures |lib.sha256(e.rpId)| == 32
  {
    assert |a.authenticatorData[..32]| == 32;
  }

  // ---------------------------------------------------------------- the alphabet

  /** Test vectors of section 10 of RFC 4648, without padding, and the two symbols of the URL-safe alphabet. */
  lemma EncodingVectors()
    ensures UrlSafeNoPad(Ascii("f")) == Ascii("Zg") && UrlSafeNoPad(Ascii("fo")) == Ascii("Zm8")
    ensures UrlSafeNoPad(Ascii("foo")) == Ascii("Zm9v")
    ensures UrlSafeNoPad([251, 255]) == Ascii("-_8")
  {
    assert Sextets(Ascii("f")) == [25, 32] && Sextets(Ascii("fo")) == [25, 38, 60];
    assert Sextets(Ascii("foo")) == [25, 38, 61, 47];
    assert Sextets([251, 255]) == [62, 63, 60];
  }
}
