/**
 * Converting signatures between the TPM's form and the X.509 form: for ECDSA, a SEQUENCE
 * of two INTEGERs (section 2.2.3 of RFC 3279) against two unsigned big-endian buffers.
 */
module Signature {
  import opened Prelude
  import opened Der
  import opened Certificate

  datatype SigAlg = RSASSA | ECDSA | OtherAlg

  const SHA256 := 0x000B

  datatype TpmSignature =
    | RsaSignature(rsaHash: int, sig: Bytes)
    | EccSignature(eccHash: int, r: Bytes, s: Bytes)
    | OtherSignature

  datatype SigError = UnsupportedAlgorithm | BadEcdsaSignature

  /** Contents octets of a non-negative INTEGER, minimal (section 8.3.2 of X.690). */
  function IntegerOctets(n: nat): Bytes {
    if n == 0 then [0]
    else if Digits(n) != [] && Digits(n)[0] >= 128 then [0] + Digits(n)
    else Digits(n)
  }

  function EncodeInteger(n: nat): Bytes {
    Encode(UNIVERSAL, false, TAG_INTEGER, IntegerOctets(n))
  }

  function EncodeEcdsa(r: nat, s: nat): Bytes {
    Encode(UNIVERSAL, true, TAG_SEQUENCE, EncodeInteger(r) + EncodeInteger(s))
  }

  /** The parser's limit is far beyond any curve; an encoding past it cannot be read back. */
  predicate Fits(r: nat, s: nat) {
    |EncodeInteger(r) + EncodeInteger(s)| < MAX_LENGTH
  }

  function GetSignature(signature: TpmSignature): Result<Bytes, SigError> {
    match signature
    case RsaSignature(_, sig) => Ok(sig)
    case EccSignature(_, r, s) => Ok(EncodeEcdsa(Value(r), Value(s)))
    case OtherSignature => Err(UnsupportedAlgorithm)
  }

  /** One INTEGER: it must be universal, primitive and minimal, of either sign. */
  function ParseInteger(b: Bytes): Option<(int, Bytes)> {
    match Parse(b)
    case None => None
    case Some((v, rest)) =>
      if v.cls == UNIVERSAL && v.tag == TAG_INTEGER && !v.compound && Minimal(v.bytes) then
        Some((Integer(v.bytes), rest))
      else None
  }

  /** The two integers of an ECDSA signature. Bytes after the second, and after the SEQUENCE, are ignored. */
  function ParseEcdsa(der: Bytes): Option<(int, int)> {
    match Parse(der)
    case None => None
    case Some((seq_, _)) =>
      if seq_.cls != UNIVERSAL || seq_.tag != TAG_SEQUENCE || !seq_.compound then None
      else
        match ParseInteger(seq_.bytes)
        case None => None
        case Some((r, more)) =>
          match ParseInteger(more)
          case None => None
          case Some((s, _)) => Some((r, s))
  }

  function Abs(n: int): nat {
    if n < 0 then -n else n
  }

  /** `big.Int.Bytes` drops the sign. */
  function GetTPMSignature(signature: Bytes, alg: SigAlg): Result<TpmSignature, SigError> {
    match alg
    case RSASSA => Ok(RsaSignature(SHA256, signature))
    case ECDSA =>
      (match ParseEcdsa(signature)
       case None => Err(BadEcdsaSignature)
       case Some((r, s)) => Ok(EccSignature(SHA256, Digits(Abs(r)), Digits(Abs(s)))))
    case OtherAlg => Err(UnsupportedAlgorithm)
  }

  // ---- one integer

  lemma {:induction false} UnsignedIntegerIsValue(b: Bytes)
    requires b != [] && b[0] < 128
    ensures Integer(b) == Value(b)
  {
    if |b| > 1 {
      UnsignedIntegerIsValue(Init(b));
    } else {
      assert Init(b) == [];
    }
  }

  lemma IntegerOctetsAreMinimal(n: nat)
    ensures Minimal(IntegerOctets(n)) && IntegerOctets(n)[0] < 128 && Integer(IntegerOctets(n)) == n
  {
    ValueOfDigits(n);
    var b := IntegerOctets(n);
    if n > 0 && Digits(n)[0] >= 128 {
      ValueOfPadded(Digits(n));
    }
    assert n == 0 ==> Init(b) == [];
    UnsignedIntegerIsValue(b);
  }

  /** Minimal octets of a non-negative integer are the ones the encoder writes. */
  lemma MinimalOctetsAreUnique(b: Bytes)
    requires Minimal(b) && b[0] < 128
    ensures IntegerOctets(Value(b)) == b
  {
    if b[0] == 0 {
      var tail := b[1..];
      assert b == [0] + tail;
      ValueOfPadded(tail);
      if tail != [] { DigitsOfValue(tail); }
    } else {
      DigitsOfValue(b);
    }
  }

  lemma ParseEncodedInteger(n: nat, rest: Bytes)
    requires |IntegerOctets(n)| < MAX_LENGTH
    ensures ParseInteger(EncodeInteger(n) + rest) == Some((n, rest))
  {
    ParseEncoded(UNIVERSAL, false, TAG_INTEGER, IntegerOctets(n), rest);
    IntegerOctetsAreMinimal(n);
  }

  lemma ParseEncodedEcdsa(r: nat, s: nat, rest: Bytes)
    requires Fits(r, s)
    ensures ParseEcdsa(EncodeEcdsa(r, s) + rest) == Some((r, s))
  {
    ParseEncoded(UNIVERSAL, true, TAG_SEQUENCE, EncodeInteger(r) + EncodeInteger(s), rest);
    ParseEncodedInteger(r, EncodeInteger(s));
    ParseEncodedInteger(s, []);
    assert EncodeInteger(s) + [] == EncodeInteger(s);
  }

  // ---- the round trips

  /**
   * From the TPM's form to DER and back, both integers survive; only leading zero octets
   * of the buffers are lost, whatever follows the DER signature.
   */
  lemma TpmToDerToTpm(hash: int, r: Bytes, s: Bytes, rest: Bytes)
    requires Fits(Value(r), Value(s))
    ensures var der := GetSignature(EccSignature(hash, r, s));
            der.Ok? && GetTPMSignature(der.value + rest, ECDSA) == Ok(EccSignature(SHA256, TrimZeros(r), TrimZeros(s)))
    ensures Value(TrimZeros(r)) == Value(r) && Value(TrimZeros(s)) == Value(s)
  {
    ParseEncodedEcdsa(Value(r), Value(s), rest);
    TrimKeepsValue(r);
    TrimKeepsValue(s);
  }

  /** Re-encoding what was read out of an accepted signature. */
  function Reencoded(der: Bytes): Result<Bytes, SigError> {
    match GetTPMSignature(der, ECDSA)
    case Err(e) => Err(e)
    case Ok(t) => GetSignature(t)
  }

  /** What an accepted signature reads as, and that the absolute values are all that is kept. */
  lemma AcceptedSignatureIsTwoIntegers(der: Bytes)
    ensures ParseEcdsa(der).Some? <==>
            exists r: Bytes, s: Bytes, extra: Bytes, rest: Bytes :: IsTwoIntegers(der, r, s, extra, rest)
    ensures forall r: Bytes, s: Bytes, extra: Bytes, rest: Bytes :: IsTwoIntegers(der, r, s, extra, rest) ==>
              ParseEcdsa(der) == Some((Integer(r), Integer(s)))
  {
    if ParseEcdsa(der).Some? {
      var (v, rest) := Parse(der).value;
      ParseCanonical(der);
      var (r, more) := Parse(v.bytes).value;
      ParseCanonical(v.bytes);
      var (s, extra) := Parse(more).value;
      ParseCanonical(more);
      assert v.bytes == Encode(UNIVERSAL, false, TAG_INTEGER, r.bytes)
                        + (Encode(UNIVERSAL, false, TAG_INTEGER, s.bytes) + extra);
      assert IsTwoIntegers(der, r.bytes, s.bytes, extra, rest);
    }
    forall r: Bytes, s: Bytes, extra: Bytes, rest: Bytes | IsTwoIntegers(der, r, s, extra, rest)
      ensures ParseEcdsa(der) == Some((Integer(r), Integer(s)))
    {
      var second := Encode(UNIVERSAL, false, TAG_INTEGER, s) + extra;
      ParseEncoded(UNIVERSAL, true, TAG_SEQUENCE, Encode(UNIVERSAL, false, TAG_INTEGER, r) + second, rest);
      ParseEncoded(UNIVERSAL, false, TAG_INTEGER, r, second);
      ParseEncoded(UNIVERSAL, false, TAG_INTEGER, s, extra);
    }
  }

  ghost predicate IsTwoIntegers(der: Bytes, r: Bytes, s: Bytes, extra: Bytes, rest: Bytes) {
    var body := Encode(UNIVERSAL, false, TAG_INTEGER, r) + (Encode(UNIVERSAL, false, TAG_INTEGER, s) + extra);
    && Minimal(r) && Minimal(s)
    && |body| < MAX_LENGTH
    && der == Encode(UNIVERSAL, true, TAG_SEQUENCE, body) + rest
  }

  lemma CanonicalIsEncoded(der: Bytes, r: Bytes, s: Bytes)
    requires IsTwoIntegers(der, r, s, [], []) && r[0] < 128 && s[0] < 128
    ensures der == EncodeEcdsa(Value(r), Value(s)) && Fits(Value(r), Value(s))
  {
    MinimalOctetsAreUnique(r);
    MinimalOctetsAreUnique(s);
    var second := Encode(UNIVERSAL, false, TAG_INTEGER, s);
    assert second + [] == second && der + [] == der;
  }

  lemma EncodedIsCanonical(der: Bytes, r: nat, s: nat)
    requires der == EncodeEcdsa(r, s) && Fits(r, s)
    ensures IsTwoIntegers(der, IntegerOctets(r), IntegerOctets(s), [], [])
  {
    IntegerOctetsAreMinimal(r);
    IntegerOctetsAreMinimal(s);
    assert EncodeInteger(s) + [] == EncodeInteger(s) && der + [] == der;
  }

  lemma ReencodedIsCanonical(der: Bytes) returns (r: Bytes, s: Bytes)
    requires |der| < MAX_INT && Reencoded(der) == Ok(der)
    ensures IsTwoIntegers(der, r, s, [], []) && r[0] < 128 && s[0] < 128
  {
    var (m, n) := ParseEcdsa(der).value;
    ValueOfDigits(Abs(m));
    ValueOfDigits(Abs(n));
    EncodedFits(der, Abs(m), Abs(n));
    EncodedIsCanonical(der, Abs(m), Abs(n));
    IntegerOctetsAreMinimal(Abs(m));
    IntegerOctetsAreMinimal(Abs(n));
    r, s := IntegerOctets(Abs(m)), IntegerOctets(Abs(n));
  }

  lemma EncodedFits(der: Bytes, r: nat, s: nat)
    requires |der| < MAX_INT && ParseEcdsa(der).Some? && der == EncodeEcdsa(r, s)
    ensures Fits(r, s)
  {
    ParseEncoded(UNIVERSAL, true, TAG_SEQUENCE, EncodeInteger(r) + EncodeInteger(s), []);
    assert der + [] == der;
  }

  /**
   * From DER to the TPM's form and back is the identity exactly on a SEQUENCE of two
   * minimal INTEGERs with their sign bits clear and no byte to spare, of any size.
   */
  lemma DerToTpmToDer(der: Bytes)
    requires |der| < MAX_INT
    ensures Reencoded(der) == Ok(der) <==>
            exists r: Bytes, s: Bytes :: IsTwoIntegers(der, r, s, [], []) && r[0] < 128 && s[0] < 128
  {
    if Reencoded(der) == Ok(der) {
      var r, s := ReencodedIsCanonical(der);
    }
    if r: Bytes, s: Bytes :| IsTwoIntegers(der, r, s, [], []) && r[0] < 128 && s[0] < 128 {
      CanonicalIsEncoded(der, r, s);
      EncodedIsReencoded(der, Value(r), Value(s));
    }
  }

  lemma EncodedIsReencoded(der: Bytes, r: nat, s: nat)
    requires Fits(r, s) && der == EncodeEcdsa(r, s)
    ensures Reencoded(der) == Ok(der)
  {
    ParseEncodedEcdsa(r, s, []);
    assert der + [] == der;
    ValueOfDigits(r);
    ValueOfDigits(s);
  }

  /** A negative R loses its sign: the signature (-1, 1) comes back as (1, 1). */
  lemma NegativeLosesItsSign()
    ensures var der := [0x30, 6, 2, 1, 0xFF, 2, 1, 1];
            ParseEcdsa(der) == Some((-1, 1)) && Reencoded(der) == Ok([0x30, 6, 2, 1, 1, 2, 1, 1])
  {
    var der: Bytes := [0x30, 6, 2, 1, 0xFF, 2, 1, 1];
    var body := [2, 1, 0xFF] + ([2, 1, 1] + []);
    assert Encode(UNIVERSAL, false, TAG_INTEGER, [0xFF]) == [2, 1, 0xFF];
    assert Encode(UNIVERSAL, false, TAG_INTEGER, [1]) == [2, 1, 1];
    assert body == [2, 1, 0xFF, 2, 1, 1];
    assert der == Encode(UNIVERSAL, true, TAG_SEQUENCE, body) + [];
    assert IsTwoIntegers(der, [0xFF], [1], [], []);
    AcceptedSignatureIsTwoIntegers(der);
    ReencodedOnes(der);
  }

  lemma OnesEncoded()
    ensures EncodeEcdsa(1, 1) == [0x30, 6, 2, 1, 1, 2, 1, 1]
  {
  }

  lemma ReencodedOnes(der: Bytes)
    requires ParseEcdsa(der) == Some((-1, 1))
    ensures Reencoded(der) == Ok([0x30, 6, 2, 1, 1, 2, 1, 1])
  {
    var t := EccSignature(SHA256, Digits(1), Digits(1));
    assert GetTPMSignature(der, ECDSA) == Ok(t);
    ValueOfDigits(1);
    assert GetSignature(t) == Ok(EncodeEcdsa(1, 1));
    OnesEncoded();
  }

  /** An RSA signature is carried over unchanged in both directions, always as one over SHA-256. */
  lemma RsaUnchanged(hash: int, sig: Bytes)
    ensures GetSignature(RsaSignature(hash, sig)) == Ok(sig)
    ensures GetTPMSignature(sig, RSASSA) == Ok(RsaSignature(0x000B, sig))
  {
  }

  /** The refusals exactly: an algorithm that is not supported, or bytes that do not start with two INTEGERs in a SEQUENCE. */
  lemma RefusedExactly(signature: Bytes, alg: SigAlg)
    ensures forall e :: GetTPMSignature(signature, alg) == Err(e) <==>
              || (alg == OtherAlg && e == UnsupportedAlgorithm)
              || (alg == ECDSA && e == BadEcdsaSignature
                  && forall r: Bytes, s: Bytes, extra: Bytes, rest: Bytes :: !IsTwoIntegers(signature, r, s, extra, rest))
    ensures forall t, e :: GetSignature(t) == Err(e) <==> t == OtherSignature && e == UnsupportedAlgorithm
  {
    AcceptedSignatureIsTwoIntegers(signature);
  }
}
