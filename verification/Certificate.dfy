/**
 * EK certificates whose serial number carries redundant leading zero octets: finding the
 * certificate in an NV index, and re-encoding it with a minimal serial.
 */
module Certificate {
  import opened Prelude
  import opened Der

  datatype StripError =
    | NotDer | TrailingData | NotSequence | BadTbs | TbsNotSequence
    | BadFirstField | BadSerial | SerialNotInteger | NoPadding

  /** A certificate as far as this layout matters (section 4.1 of RFC 5280). An absent version is empty. */
  datatype Cert = Cert(version: Bytes, serial: Bytes, tbsRest: Bytes, rest: Bytes)

  function TbsBody(c: Cert): Bytes {
    c.version + Encode(UNIVERSAL, false, TAG_INTEGER, c.serial) + c.tbsRest
  }

  function EncodeTbs(c: Cert): Bytes {
    Encode(UNIVERSAL, true, TAG_SEQUENCE, TbsBody(c))
  }

  function CertBody(c: Cert): Bytes {
    EncodeTbs(c) + c.rest
  }

  function EncodeCert(c: Cert): Bytes {
    Encode(UNIVERSAL, true, TAG_SEQUENCE, CertBody(c))
  }

  /** A version field is one element tagged [0]. */
  ghost predicate IsVersion(v: Bytes) {
    v == [] || exists compound, body: Bytes :: |body| < MAX_LENGTH && v == Encode(CONTEXT_SPECIFIC, compound, 0, body)
  }

  /** The layout is right, and the whole is not too long to be parsed. */
  ghost predicate WellFormed(c: Cert) {
    IsVersion(c.version) && |CertBody(c)| < MAX_LENGTH
  }

  /** More than one octet, and the first nine bits are zero (against section 8.3.2 of X.690). */
  predicate ZeroPadded(serial: Bytes) {
    |serial| > 1 && serial[0] == 0 && serial[1] < 128
  }

  /** Section 8.3.2 of X.690: not empty, and the first nine bits neither all zero nor all one. */
  predicate Minimal(serial: Bytes) {
    serial != [] && !ZeroPadded(serial) && !(|serial| > 1 && serial[0] == 255 && serial[1] >= 128)
  }

  function StripZeros(serial: Bytes): (r: Bytes)
    ensures |r| <= |serial|
  {
    if ZeroPadded(serial) then StripZeros(serial[1..]) else serial
  }

  /** The integer the contents octets denote, in two's complement (section 8.3.3 of X.690). */
  function Integer(b: Bytes): int
    requires b != []
  {
    if |b| == 1 then (if b[0] < 128 then b[0] else b[0] - 256)
    else Integer(Init(b)) * 256 + Last(b)
  }

  // ---- the normaliser

  /** `stripSerialNumberLeadingNullBytes` as a function: the new certificate and the original TBS. */
  function Normalise(certDer: Bytes): Result<(Bytes, Bytes), StripError> {
    match Parse(certDer)
    case None => Err(NotDer)
    case Some((cert, remaining)) =>
      if remaining != [] then Err(TrailingData)
      else if cert.cls != UNIVERSAL || cert.tag != TAG_SEQUENCE || !cert.compound then Err(NotSequence)
      else
        match Parse(cert.bytes)
        case None => Err(BadTbs)
        case Some((tbs, tbsRemainder)) =>
          if tbs.cls != UNIVERSAL || tbs.tag != TAG_SEQUENCE || !tbs.compound then Err(TbsNotSequence)
          else NormaliseTbs(tbs, tbsRemainder)
  }

  function NormaliseTbs(tbs: RawValue, tbsRemainder: Bytes): Result<(Bytes, Bytes), StripError> {
    match Parse(tbs.bytes)
    case None => Err(BadFirstField)
    case Some((first, fieldRemainder)) =>
      if first.cls == CONTEXT_SPECIFIC && first.tag == 0 then
        match Parse(fieldRemainder)
        case None => Err(BadSerial)
        case Some((serial, more)) => Rebuild(tbs, tbsRemainder, first.full, serial, more)
      else
        Rebuild(tbs, tbsRemainder, [], first, fieldRemainder)
  }

  function Rebuild(tbs: RawValue, tbsRemainder: Bytes, version: Bytes, serial: RawValue, more: Bytes)
      : Result<(Bytes, Bytes), StripError>
  {
    if serial.cls != UNIVERSAL || serial.tag != TAG_INTEGER || serial.compound then Err(SerialNotInteger)
    else if StripZeros(serial.bytes) == serial.bytes then Err(NoPadding)
    else Ok((EncodeCert(Cert(version, StripZeros(serial.bytes), more, tbsRemainder)), tbs.full))
  }

  /** The normaliser as the program runs it. */
  method StripSerialNumberLeadingNullBytes(certDer: Bytes) returns (r: Result<(Bytes, Bytes), StripError>)
    ensures r == Normalise(certDer)
  {
    var outer := Parse(certDer);
    if outer.None? { return Err(NotDer); }
    var (cert, remaining) := outer.value;
    if |remaining| != 0 { return Err(TrailingData); }
    if cert.cls != UNIVERSAL || cert.tag != TAG_SEQUENCE || !cert.compound { return Err(NotSequence); }
    var inner := Parse(cert.bytes);
    if inner.None? { return Err(BadTbs); }
    var (tbs, tbsRemainder) := inner.value;
    if tbs.cls != UNIVERSAL || tbs.tag != TAG_SEQUENCE || !tbs.compound { return Err(TbsNotSequence); }
    var field := Parse(tbs.bytes);
    if field.None? { return Err(BadFirstField); }
    var (serial, serialRemainder) := field.value;
    var serialOffset := 0;
    if serial.cls == CONTEXT_SPECIFIC && serial.tag == 0 {
      ParseCanonical(tbs.bytes);
      serialOffset := |tbs.bytes| - |serialRemainder|;
      var next := Parse(serialRemainder);
      if next.None? { return Err(BadSerial); }
      serial, serialRemainder := next.value.0, next.value.1;
    }
    if serial.cls != UNIVERSAL || serial.tag != TAG_INTEGER || serial.compound { return Err(SerialNotInteger); }
    var normalized := serial.bytes;
    while |normalized| > 1 && normalized[0] == 0 && normalized[1] < 128
      invariant |normalized| <= |serial.bytes|
      invariant StripZeros(normalized) == StripZeros(serial.bytes)
    {
      normalized := normalized[1..];
    }
    var removedBytes := |serial.bytes| - |normalized|;
    if removedBytes == 0 {
      StrippedShorter(serial.bytes);
      return Err(NoPadding);
    }
    var body := tbs.bytes[..serialOffset];
    body := body + Encode(UNIVERSAL, false, TAG_INTEGER, normalized);
    body := body + serialRemainder;
    var newTbs := Encode(tbs.cls, tbs.compound, tbs.tag, body);
    var certBody := newTbs + tbsRemainder;
    r := Ok((Encode(cert.cls, cert.compound, cert.tag, certBody), tbs.full));
  }

  lemma {:induction false} StrippedShorter(serial: Bytes)
    ensures StripZeros(serial) == serial <==> !ZeroPadded(serial)
    ensures ZeroPadded(serial) ==> |StripZeros(serial)| < |serial|
  {
  }

  // ---- what parsing an encoded certificate gives

  lemma BodiesAreShorter(c: Cert)
    ensures |c.serial| < |TbsBody(c)| < |CertBody(c)|
    ensures |c.version| <= |TbsBody(c)|
  {
  }

  /** The normaliser on any well-formed certificate, padded or not. */
  lemma NormaliseEncoded(c: Cert)
    requires WellFormed(c)
    ensures Normalise(EncodeCert(c)) ==
              if ZeroPadded(c.serial) then Ok((EncodeCert(c.(serial := StripZeros(c.serial))), EncodeTbs(c)))
              else Err(NoPadding)
  {
    BodiesAreShorter(c);
    StrippedShorter(c.serial);
    ParseEncoded(UNIVERSAL, true, TAG_SEQUENCE, CertBody(c), []);
    assert EncodeCert(c) + [] == EncodeCert(c);
    ParseEncoded(UNIVERSAL, true, TAG_SEQUENCE, TbsBody(c), c.rest);
    NormaliseEncodedTbs(c);
  }

  lemma NormaliseEncodedTbs(c: Cert)
    requires WellFormed(c)
    ensures var tbs := RawValue(UNIVERSAL, TAG_SEQUENCE, true, TbsBody(c), EncodeTbs(c));
            NormaliseTbs(tbs, c.rest) ==
              if StripZeros(c.serial) == c.serial then Err(NoPadding)
              else Ok((EncodeCert(c.(serial := StripZeros(c.serial))), EncodeTbs(c)))
  {
    TbsBodyParses(c);
    var stripped := c.(serial := StripZeros(c.serial));
    assert stripped == Cert(c.version, StripZeros(c.serial), c.tbsRest, c.rest);
  }

  lemma TbsBodyParses(c: Cert)
    requires WellFormed(c)
    ensures var serial := RawValue(UNIVERSAL, TAG_INTEGER, false, c.serial, Encode(UNIVERSAL, false, TAG_INTEGER, c.serial));
            if c.version == [] then Parse(TbsBody(c)) == Some((serial, c.tbsRest))
            else
              && Parse(TbsBody(c)).Some?
              && var (first, more) := Parse(TbsBody(c)).value;
                 && first.cls == CONTEXT_SPECIFIC && first.tag == 0 && first.full == c.version
                 && Parse(more) == Some((serial, c.tbsRest))
  {
    BodiesAreShorter(c);
    var serial := Encode(UNIVERSAL, false, TAG_INTEGER, c.serial);
    ParseEncoded(UNIVERSAL, false, TAG_INTEGER, c.serial, c.tbsRest);
    if c.version == [] {
      assert TbsBody(c) == serial + c.tbsRest;
    } else {
      ConcatAssociative(c.version, serial, c.tbsRest);
      VersionEncoded(c.version, serial + c.tbsRest);
    }
  }

  lemma VersionEncoded(version: Bytes, more: Bytes)
    requires IsVersion(version) && version != []
    ensures Parse(version + more).Some?
    ensures var (v, rest) := Parse(version + more).value;
            v.cls == CONTEXT_SPECIFIC && v.tag == 0 && v.full == version && rest == more
  {
    var compound, body: Bytes :| |body| < MAX_LENGTH && version == Encode(CONTEXT_SPECIFIC, compound, 0, body);
    ParseEncoded(CONTEXT_SPECIFIC, compound, 0, body, more);
  }

  /** Whatever is accepted is an encoded well-formed certificate with a padded serial. */
  lemma AcceptedIsEncoded(certDer: Bytes) returns (c: Cert)
    requires Normalise(certDer).Ok?
    ensures WellFormed(c) && certDer == EncodeCert(c) && ZeroPadded(c.serial)
  {
    var (cert, remaining) := Parse(certDer).value;
    var (tbs, tbsRemainder) := Parse(cert.bytes).value;
    ParseCanonical(certDer);
    ParseCanonical(cert.bytes);
    assert certDer == cert.full;
    c := AcceptedTbs(tbs, tbsRemainder);
  }

  lemma AcceptedTbs(tbs: RawValue, tbsRemainder: Bytes) returns (c: Cert)
    requires NormaliseTbs(tbs, tbsRemainder).Ok?
    ensures IsVersion(c.version) && TbsBody(c) == tbs.bytes && c.rest == tbsRemainder && ZeroPadded(c.serial)
  {
    var (first, more) := Parse(tbs.bytes).value;
    if first.cls == CONTEXT_SPECIFIC && first.tag == 0 {
      VersionParsed(tbs.bytes);
      c := AcceptedSerial(first.full, more, tbsRemainder);
    } else {
      c := AcceptedSerial([], tbs.bytes, tbsRemainder);
      assert tbs.bytes == [] + tbs.bytes;
    }
  }

  lemma VersionParsed(b: Bytes)
    requires Parse(b).Some? && Parse(b).value.0.cls == CONTEXT_SPECIFIC && Parse(b).value.0.tag == 0
    ensures var (v, more) := Parse(b).value; b == v.full + more && IsVersion(v.full)
  {
    ParseCanonical(b);
  }

  lemma AcceptedSerial(version: Bytes, b: Bytes, tbsRemainder: Bytes) returns (c: Cert)
    requires IsVersion(version) && Parse(b).Some?
    requires var serial := Parse(b).value.0;
             && serial.cls == UNIVERSAL && serial.tag == TAG_INTEGER && !serial.compound
             && StripZeros(serial.bytes) != serial.bytes
    ensures IsVersion(c.version) && c.rest == tbsRemainder && ZeroPadded(c.serial) && TbsBody(c) == version + b
  {
    var (serial, more) := Parse(b).value;
    ParseCanonical(b);
    StrippedShorter(serial.bytes);
    c := Cert(version, serial.bytes, more, tbsRemainder);
    ConcatAssociative(version, serial.full, more);
  }

  // ---- the theorems

  /** Exactly the well-formed certificates with a zero-padded serial are accepted. */
  lemma AcceptedExactly(certDer: Bytes)
    ensures Normalise(certDer).Ok? <==>
            exists c :: WellFormed(c) && certDer == EncodeCert(c) && ZeroPadded(c.serial)
  {
    if Normalise(certDer).Ok? {
      var c := AcceptedIsEncoded(certDer);
    } else if c :| WellFormed(c) && certDer == EncodeCert(c) && ZeroPadded(c.serial) {
      NormaliseEncoded(c);
    }
  }

  lemma {:induction false} StripZerosOfPadded(serial: Bytes, k: nat)
    requires serial != [] && serial[0] < 128 && !ZeroPadded(serial)
    ensures StripZeros(Zeros(k) + serial) == serial
    ensures k > 0 ==> ZeroPadded(Zeros(k) + serial)
  {
    var padded := Zeros(k) + serial;
    if k == 0 {
      assert padded == serial;
    } else {
      assert padded[1..] == Zeros(k - 1) + serial;
      StripZerosOfPadded(serial, k - 1);
    }
  }

  /**
   * Stripping exactly undoes padding. Take any certificate with a minimal non-negative
   * serial, put `k` zero octets before the serial and encode both enclosing SEQUENCEs
   * again, whatever that does to their length octets: normalising gives the original
   * certificate back byte for byte, with the padded TBS kept for signature checks. The
   * one limit is the parser's own: the padded certificate is refused exactly when it is
   * too long.
   */
  lemma StrippingUndoesPadding(c: Cert, k: nat)
    requires IsVersion(c.version) && Minimal(c.serial) && c.serial[0] < 128 && k > 0
    requires |CertBody(c.(serial := Zeros(k) + c.serial))| < MAX_INT
    ensures var padded := c.(serial := Zeros(k) + c.serial);
            Normalise(EncodeCert(padded)) ==
              if |CertBody(padded)| < MAX_LENGTH then Ok((EncodeCert(c), EncodeTbs(padded))) else Err(NotDer)
  {
    var padded := c.(serial := Zeros(k) + c.serial);
    StripZerosOfPadded(c.serial, k);
    if |CertBody(padded)| < MAX_LENGTH {
      NormaliseEncoded(padded);
      assert padded.(serial := c.serial) == c;
    } else {
      ParseEncoded(UNIVERSAL, true, TAG_SEQUENCE, CertBody(padded), []);
      assert EncodeCert(padded) + [] == EncodeCert(padded);
    }
  }

  lemma {:induction false} LeadingZeroKeepsInteger(b: Bytes)
    requires b != [] && b[0] < 128
    ensures Integer([0] + b) == Integer(b)
  {
    if |b| == 1 {
      assert Init([0] + b) == [0];
    } else {
      LeadingZeroKeepsInteger(Init(b));
      assert Init([0] + b) == [0] + Init(b);
    }
  }

  lemma {:induction false} StripZerosKeepsInteger(serial: Bytes)
    requires ZeroPadded(serial)
    ensures Minimal(StripZeros(serial)) && Integer(StripZeros(serial)) == Integer(serial)
  {
    LeadingZeroKeepsInteger(serial[1..]);
    assert serial == [0] + serial[1..];
    if ZeroPadded(serial[1..]) {
      StripZerosKeepsInteger(serial[1..]);
    }
  }

  /** Re-encoding with a shorter serial keeps the certificate within the parser's limit. */
  lemma ShorterSerialStaysWellFormed(c: Cert, serial: Bytes)
    requires WellFormed(c) && |serial| <= |c.serial|
    ensures WellFormed(c.(serial := serial))
  {
    var d := c.(serial := serial);
    LengthGrows(|serial|, |c.serial|);
    assert |TbsBody(d)| <= |TbsBody(c)|;
    LengthGrows(|TbsBody(d)|, |TbsBody(c)|);
  }

  lemma {:induction false} LengthGrows(m: nat, n: nat)
    requires m <= n < MAX_INT
    ensures |EncodeLength(m)| <= |EncodeLength(n)|
  {
    DigitsGrow(m, n);
  }

  lemma {:induction false} DigitsGrow(m: nat, n: nat)
    requires m <= n
    ensures |Digits(m)| <= |Digits(n)|
  {
    if m > 0 {
      DigitsGrow(m / 256, n / 256);
    }
  }

  /**
   * What an accepted certificate becomes: the same version, the same bytes after the
   * serial and after the TBS, a minimal serial denoting the same integer; the TBS handed
   * back is the input's own; and a second normalisation finds nothing to do.
   */
  lemma AcceptedBecomesMinimal(certDer: Bytes) returns (c: Cert, d: Cert)
    requires Normalise(certDer).Ok?
    ensures WellFormed(c) && certDer == EncodeCert(c)
    ensures WellFormed(d) && Normalise(certDer).value == (EncodeCert(d), EncodeTbs(c))
    ensures d == c.(serial := d.serial) && Minimal(d.serial) && c.serial != [] && Integer(d.serial) == Integer(c.serial)
    ensures |d.serial| < |c.serial|
    ensures Normalise(EncodeCert(d)) == Err(NoPadding)
  {
    c := AcceptedIsEncoded(certDer);
    d := c.(serial := StripZeros(c.serial));
    NormaliseEncoded(c);
    StripZerosKeepsInteger(c.serial);
    StrippedShorter(c.serial);
    ShorterSerialStaysWellFormed(c, d.serial);
    NormaliseEncoded(d);
  }

  // ---- finding the certificate in an NV index

  datatype ExtractError = EmptyCertificate | Truncated | NotDerData | NotACertificate

  /** What the optional TCG wrapper declares to be the certificate. */
  function Payload(b: Bytes): Result<Bytes, ExtractError> {
    if |b| >= 5 && b[..3] == [0x10, 0x01, 0x00] then
      var certLen := b[3] as int * 256 + b[4];
      if certLen == 0 then Err(EmptyCertificate)
      else if |b| < certLen + 5 then Err(Truncated)
      else Ok(b[5..5 + certLen])
    else Ok(b)
  }

  /** `extractEKCertificateDER`: the first element, which must be a SEQUENCE; unused bytes are ignored. */
  function Extract(b: Bytes): Result<Bytes, ExtractError> {
    match Payload(b)
    case Err(e) => Err(e)
    case Ok(payload) =>
      match Parse(payload)
      case None => Err(NotDerData)
      case Some((cert, _)) =>
        if cert.cls != UNIVERSAL || cert.tag != TAG_SEQUENCE || !cert.compound then Err(NotACertificate)
        else Ok(cert.full)
  }

  /** Exactly a SEQUENCE at the start of the payload is extracted, however many bytes follow it. */
  lemma ExtractedExactly(b: Bytes, cert: Bytes)
    ensures Extract(b) == Ok(cert) <==>
            exists body: Bytes, tail: Bytes ::
              && |body| < MAX_LENGTH && cert == Encode(UNIVERSAL, true, TAG_SEQUENCE, body)
              && Payload(b) == Ok(cert + tail)
  {
    if Extract(b) == Ok(cert) {
      var payload := Payload(b).value;
      ParseCanonical(payload);
      var (v, rest) := Parse(payload).value;
      assert cert == Encode(UNIVERSAL, true, TAG_SEQUENCE, v.bytes) && Payload(b) == Ok(cert + rest);
    }
    if body: Bytes, tail: Bytes :|
      && |body| < MAX_LENGTH && cert == Encode(UNIVERSAL, true, TAG_SEQUENCE, body)
      && Payload(b) == Ok(cert + tail) {
      ParseEncoded(UNIVERSAL, true, TAG_SEQUENCE, body, tail);
    }
  }

  /** A certificate is found both bare and wrapped, with the same result. */
  lemma WrapperIsTransparent(body: Bytes, pad: Bytes, junk: Bytes)
    requires var n := |Encode(UNIVERSAL, true, TAG_SEQUENCE, body) + pad|; n < 0x1_0000
    ensures var cert := Encode(UNIVERSAL, true, TAG_SEQUENCE, body);
            var n := |cert + pad|;
            && Extract(cert + junk) == Ok(cert)
            && Extract([0x10, 0x01, 0x00, n / 256, n % 256] + (cert + pad) + junk) == Ok(cert)
  {
    var cert := Encode(UNIVERSAL, true, TAG_SEQUENCE, body);
    var n := |cert + pad|;
    ParseEncoded(UNIVERSAL, true, TAG_SEQUENCE, body, junk);
    ParseEncoded(UNIVERSAL, true, TAG_SEQUENCE, body, pad);
    assert (cert + junk)[0] == 0x30;
    var b := [0x10, 0x01, 0x00, n / 256, n % 256] + (cert + pad) + junk;
    assert b[..3] == [0x10, 0x01, 0x00] && b[3] * 256 + b[4] == n && b[5..5 + n] == cert + pad;
  }

  // ---- the EK certificate parser

  /** What `x509` reads out of a certificate, as far as it matters here. */
  datatype Parsed = Parsed(issuerOrganizations: seq<string>, from: Bytes)

  const ST_ORGANIZATION := "STMicroelectronics NV"

  datatype ParseError = NotExtracted(e: ExtractError) | NotNormalised(s: StripError) | NotParsed | WrongIssuer

  class X509Certificate {
    const fields: Parsed
    var raw: Bytes
    var rawTbs: Bytes

    constructor (fields: Parsed, raw: Bytes, rawTbs: Bytes)
      ensures this.fields == fields && this.raw == raw && this.rawTbs == rawTbs
    {
      this.fields, this.raw, this.rawTbs := fields, raw, rawTbs;
    }
  }

  /** The two library parsers: the EK parser tried first, and `x509.ParseCertificate`; the latter records the TBS it saw. */
  datatype Library = Library(ek: Bytes -> Option<(Parsed, Bytes, Bytes)>, x509: Bytes -> Option<(Parsed, Bytes)>)

  /**
   * `ParseEKCertificate`. A certificate the strict parser takes is left alone. Otherwise
   * the fields come from the normalised encoding while the raw bytes stay as stored:
   * exactly the padded certificate, and inside it the TBS the issuer signed.
   */
  method ParseEKCertificate(lib: Library, certBytes: Bytes) returns (r: Result<X509Certificate, ParseError>)
    ensures lib.ek(certBytes).Some? ==>
              r.Ok? && (r.value.fields, r.value.raw, r.value.rawTbs) == lib.ek(certBytes).value
    ensures lib.ek(certBytes).None? && r.Ok? ==>
              && Extract(certBytes) == Ok(r.value.raw)
              && exists c :: WellFormed(c) && ZeroPadded(c.serial)
                          && r.value.raw == EncodeCert(c) && r.value.rawTbs == EncodeTbs(c)
                          && lib.x509(EncodeCert(c.(serial := StripZeros(c.serial)))).Some?
                          && r.value.fields == lib.x509(EncodeCert(c.(serial := StripZeros(c.serial)))).value.0
                          && "STMicroelectronics NV" in r.value.fields.issuerOrganizations
    ensures lib.ek(certBytes).None? && r.Err? ==>
              match r.error
              case NotExtracted(e) => Extract(certBytes) == Err(e)
              case NotNormalised(e) => Extract(certBytes).Ok? && Normalise(Extract(certBytes).value) == Err(e)
              case NotParsed => Extract(certBytes).Ok? && Normalise(Extract(certBytes).value).Ok?
                                && lib.x509(Normalise(Extract(certBytes).value).value.0).None?
              case WrongIssuer => Extract(certBytes).Ok? && Normalise(Extract(certBytes).value).Ok?
                                  && var parsed := lib.x509(Normalise(Extract(certBytes).value).value.0);
                                     parsed.Some? && "STMicroelectronics NV" !in parsed.value.0.issuerOrganizations
    ensures r.Ok? ==> fresh(r.value)
  {
    var strict := lib.ek(certBytes);
    if strict.Some? {
      var (fields, raw, rawTbs) := strict.value;
      var cert := new X509Certificate(fields, raw, rawTbs);
      return Ok(cert);
    }
    var extracted := Extract(certBytes);
    if extracted.Err? { return Err(NotExtracted(extracted.error)); }
    var certDer := extracted.value;
    var stripped := StripSerialNumberLeadingNullBytes(certDer);
    if stripped.Err? { return Err(NotNormalised(stripped.error)); }
    var (normalizedDer, originalTbs) := stripped.value;
    var parsed := lib.x509(normalizedDer);
    if parsed.None? { return Err(NotParsed); }
    if ST_ORGANIZATION !in parsed.value.0.issuerOrganizations { return Err(WrongIssuer); }
    var cert := new X509Certificate(parsed.value.0, normalizedDer, parsed.value.1);
    cert.raw := certDer;
    cert.rawTbs := originalTbs;
    ghost var c := AcceptedIsEncoded(certDer);
    NormaliseEncoded(c);
    r := Ok(cert);
  }
}
