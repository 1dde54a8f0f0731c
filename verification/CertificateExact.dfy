/**
 * Every way a certificate is refused, told from its bytes: which refusal the normaliser
 * gives, and what the wrapper of an NV index is taken to hold.
 */
module CertificateExact {
  import opened Prelude
  import opened Der
  import opened Certificate

  // ---- elements at the start of a string

  ghost predicate IsElement(b: Bytes, cls: Class, compound: bool, tag: LowTag, body: Bytes, rest: Bytes) {
    |body| < MAX_LENGTH && b == Encode(cls, compound, tag, body) + rest
  }

  ghost predicate Starts(b: Bytes, cls: Class, compound: bool, tag: LowTag) {
    exists body: Bytes, rest: Bytes :: IsElement(b, cls, compound, tag, body, rest)
  }

  ghost predicate IsSequence(b: Bytes, body: Bytes, rest: Bytes) {
    IsElement(b, UNIVERSAL, true, TAG_SEQUENCE, body, rest)
  }

  lemma ElementParsed(b: Bytes, cls: Class, compound: bool, tag: LowTag, body: Bytes, rest: Bytes)
    requires IsElement(b, cls, compound, tag, body, rest)
    ensures Parse(b) == Some((RawValue(cls, tag, compound, body, Encode(cls, compound, tag, body)), rest))
  {
    ParseEncoded(cls, compound, tag, body, rest);
  }

  /** The parser sees an element of a kind exactly when the string starts with one. */
  lemma StartsExactly(b: Bytes, cls: Class, compound: bool, tag: LowTag)
    ensures Starts(b, cls, compound, tag) <==>
              && Parse(b).Some?
              && var v := Parse(b).value.0; v.cls == cls && v.tag == tag && v.compound == compound
    ensures Starts(b, cls, compound, tag) ==>
              var (v, rest) := Parse(b).value; IsElement(b, cls, compound, tag, v.bytes, rest)
  {
    hide Encode, Parse;
    if Parse(b).Some? && (Parse(b).value.0.cls, Parse(b).value.0.tag, Parse(b).value.0.compound) == (cls, tag, compound) {
      ParseCanonical(b);
      assert IsElement(b, cls, compound, tag, Parse(b).value.0.bytes, Parse(b).value.1);
    }
    if body: Bytes, rest: Bytes :| IsElement(b, cls, compound, tag, body, rest) {
      ElementParsed(b, cls, compound, tag, body, rest);
    }
  }

  // ---- the refusals

  ghost predicate StartsVersion(b: Bytes) {
    Starts(b, CONTEXT_SPECIFIC, true, 0) || Starts(b, CONTEXT_SPECIFIC, false, 0)
  }

  ghost predicate StartsInteger(b: Bytes) {
    Starts(b, UNIVERSAL, false, TAG_INTEGER)
  }

  /** The TBS splits into a version, or none where none starts, and the rest. */
  ghost predicate Splits(t: Bytes, version: Bytes, more: Bytes) {
    t == version + more && IsVersion(version) && (version == [] ==> Parse(t).Some? && !StartsVersion(t))
  }

  /** What is wrong with the contents of a TBS. */
  ghost predicate TbsRefused(t: Bytes, e: StripError) {
    match e
    case BadFirstField => Parse(t).None?
    case BadSerial => exists version, more :: Splits(t, version, more) && Parse(more).None?
    case SerialNotInteger =>
      exists version, more :: Splits(t, version, more) && Parse(more).Some? && !StartsInteger(more)
    case NoPadding =>
      exists version, more, serial: Bytes, rest: Bytes ::
        Splits(t, version, more) && IsElement(more, UNIVERSAL, false, TAG_INTEGER, serial, rest) && !ZeroPadded(serial)
    case _ => false
  }

  /** What is wrong with the contents of a certificate. */
  ghost predicate BodyRefused(body: Bytes, e: StripError) {
    match e
    case BadTbs => Parse(body).None?
    case TbsNotSequence => Parse(body).Some? && !Starts(body, UNIVERSAL, true, TAG_SEQUENCE)
    case _ => exists t, rest :: IsSequence(body, t, rest) && TbsRefused(t, e)
  }

  /** What is wrong with a certificate, from the outside in. */
  ghost predicate Refused(certDer: Bytes, e: StripError) {
    match e
    case NotDer => Parse(certDer).None?
    case TrailingData => Parse(certDer).Some? && Parse(certDer).value.1 != []
    case NotSequence =>
      Parse(certDer).Some? && Parse(certDer).value.1 == [] && !Starts(certDer, UNIVERSAL, true, TAG_SEQUENCE)
    case _ => exists body :: IsSequence(certDer, body, []) && BodyRefused(body, e)
  }

  lemma SplitParsed(t: Bytes) returns (version: Bytes, more: Bytes)
    requires Parse(t).Some?
    ensures Splits(t, version, more)
    ensures var (first, rest) := Parse(t).value;
            if first.cls == CONTEXT_SPECIFIC && first.tag == 0 then version == first.full != [] && more == rest
            else version == [] && more == t
    ensures forall version', more' :: Splits(t, version', more') ==> version' == version && more' == more
  {
    var (first, rest) := Parse(t).value;
    StartsExactly(t, CONTEXT_SPECIFIC, true, 0);
    StartsExactly(t, CONTEXT_SPECIFIC, false, 0);
    if first.cls == CONTEXT_SPECIFIC && first.tag == 0 {
      VersionParsed(t);
      version, more := first.full, rest;
    } else {
      version, more := [], t;
    }
    hide Parse, Encode;
    forall version', more' | Splits(t, version', more')
      ensures version' == version && more' == more
    {
      if version' != [] {
        VersionEncoded(version', more');
      } else {
        assert more' == t;
      }
    }
  }

  lemma NotSplit(t: Bytes)
    requires Parse(t).None?
    ensures forall version, more :: !Splits(t, version, more)
  {
    forall version, more
      ensures !Splits(t, version, more)
    {
      if Splits(t, version, more) {
        if version != [] {
          VersionEncoded(version, more);
        }
        assert false;
      }
    }
  }

  /** The serial is looked for behind the version. */
  lemma SerialBehindVersion(tbs: RawValue, tbsRemainder: Bytes, version: Bytes, more: Bytes)
    requires Parse(tbs.bytes).Some?
    requires var (first, rest) := Parse(tbs.bytes).value;
             if first.cls == CONTEXT_SPECIFIC && first.tag == 0 then version == first.full && more == rest
             else version == [] && more == tbs.bytes
    ensures NormaliseTbs(tbs, tbsRemainder) ==
              match Parse(more)
              case None => Err(BadSerial)
              case Some((serial, rest)) => Rebuild(tbs, tbsRemainder, version, serial, rest)
  {
    hide Parse, Rebuild;
  }

  /** What the bytes behind the version are refused for. */
  ghost predicate SerialRefused(more: Bytes, e: StripError) {
    match e
    case BadSerial => Parse(more).None?
    case SerialNotInteger => Parse(more).Some? && !StartsInteger(more)
    case NoPadding =>
      exists serial: Bytes, rest: Bytes :: IsElement(more, UNIVERSAL, false, TAG_INTEGER, serial, rest) && !ZeroPadded(serial)
    case _ => false
  }

  lemma SerialRefusedExactly(tbs: RawValue, tbsRemainder: Bytes, version: Bytes, more: Bytes)
    ensures forall e :: SerialRefused(more, e) <==>
              match Parse(more)
              case None => e == BadSerial
              case Some((serial, rest)) => Rebuild(tbs, tbsRemainder, version, serial, rest) == Err(e)
  {
    hide Parse, Encode, EncodeCert;
    StartsExactly(more, UNIVERSAL, false, TAG_INTEGER);
    forall serial: Bytes, rest: Bytes | IsElement(more, UNIVERSAL, false, TAG_INTEGER, serial, rest)
      ensures Parse(more).Some? && Parse(more).value.0.bytes == serial
    {
      ElementParsed(more, UNIVERSAL, false, TAG_INTEGER, serial, rest);
    }
    hide IsElement, StripZeros, ZeroPadded;
    if StartsInteger(more) {
      var (v, rest) := Parse(more).value;
      StrippedShorter(v.bytes);
      assert IsElement(more, UNIVERSAL, false, TAG_INTEGER, v.bytes, rest);
    }
  }

  lemma TbsRefusedExactly(tbs: RawValue, tbsRemainder: Bytes)
    ensures forall e :: NormaliseTbs(tbs, tbsRemainder) == Err(e) <==> TbsRefused(tbs.bytes, e)
  {
    hide Encode, Rebuild, IsElement;
    var t := tbs.bytes;
    if Parse(t).None? {
      NotSplit(t);
      hide Parse;
    } else {
      var version, more := SplitParsed(t);
      SerialBehindVersion(tbs, tbsRemainder, version, more);
      SerialRefusedExactly(tbs, tbsRemainder, version, more);
      hide Parse, Splits, NormaliseTbs, StartsInteger, ZeroPadded;
    }
  }

  /** A string starts with one SEQUENCE, or with none, as the parser sees it. */
  lemma SequenceExactly(b: Bytes)
    ensures Starts(b, UNIVERSAL, true, TAG_SEQUENCE) <==>
              && Parse(b).Some?
              && var v := Parse(b).value.0; v.cls == UNIVERSAL && v.tag == TAG_SEQUENCE && v.compound
    ensures forall body, rest :: IsSequence(b, body, rest) <==>
              Starts(b, UNIVERSAL, true, TAG_SEQUENCE) && (Parse(b).value.0.bytes, Parse(b).value.1) == (body, rest)
  {
    StartsExactly(b, UNIVERSAL, true, TAG_SEQUENCE);
    hide Parse, Encode;
    forall body, rest | IsSequence(b, body, rest)
      ensures Parse(b).Some? && (Parse(b).value.0.bytes, Parse(b).value.1) == (body, rest)
    {
      ElementParsed(b, UNIVERSAL, true, TAG_SEQUENCE, body, rest);
    }
  }

  lemma BodyRefusedExactly(body: Bytes)
    ensures forall e :: BodyRefused(body, e) <==>
              match Parse(body)
              case None => e == BadTbs
              case Some((tbs, rest)) =>
                if tbs.cls != UNIVERSAL || tbs.tag != TAG_SEQUENCE || !tbs.compound then e == TbsNotSequence
                else NormaliseTbs(tbs, rest) == Err(e)
  {
    SequenceExactly(body);
    hide Parse, NormaliseTbs, Starts, IsSequence;
    assert forall t :: !TbsRefused(t, BadTbs) && !TbsRefused(t, TbsNotSequence);
    if Parse(body).Some? {
      var (tbs, rest) := Parse(body).value;
      TbsRefusedExactly(tbs, rest);
      assert Starts(body, UNIVERSAL, true, TAG_SEQUENCE) ==> IsSequence(body, tbs.bytes, rest);
    }
    hide TbsRefused;
  }

  /** The refusal exactly: each error is returned for the certificates that have that fault, and for no others. */
  lemma RefusedExactly(certDer: Bytes)
    ensures forall e :: Normalise(certDer) == Err(e) <==> Refused(certDer, e)
  {
    SequenceExactly(certDer);
    assert forall body, e | e in {NotDer, TrailingData, NotSequence} :: !BodyRefused(body, e);
    hide Parse, NormaliseTbs, Starts, IsSequence, BodyRefused;
    if Parse(certDer).Some? {
      var (cert, rest) := Parse(certDer).value;
      BodyRefusedExactly(cert.bytes);
      assert rest == [] && Starts(certDer, UNIVERSAL, true, TAG_SEQUENCE) ==> IsSequence(certDer, cert.bytes, []);
    }
  }

  // ---- the wrapper of an NV index

  predicate IsMarked(b: Bytes) {
    |b| >= 5 && b[0] == 0x10 && b[1] == 0x01 && b[2] == 0x00
  }

  function Marked(length: nat, part: Bytes): Bytes {
    [0x10, 0x01, 0x00, length / 256 % 256, length % 256] + part
  }

  /**
   * Without the marker the whole string is the payload. Behind it the next two octets give
   * the payload's length in big endian: nothing is an error, and so is too little.
   */
  lemma PayloadExactly(b: Bytes)
    ensures forall p: Bytes :: Payload(b) == Ok(p) <==>
              if IsMarked(b) then 0 < |p| < 0x1_0000 && exists junk :: b == Marked(|p|, p + junk) else p == b
    ensures Payload(b) == Err(EmptyCertificate) <==> exists junk :: b == Marked(0, junk)
    ensures Payload(b) == Err(Truncated) <==>
              exists n: nat, part :: 0 < n < 0x1_0000 && |part| < n && b == Marked(n, part)
    ensures Payload(b) != Err(NotDerData) && Payload(b) != Err(NotACertificate)
  {
    if IsMarked(b) {
      var n, tail := MarkedOnce(b);
      MarkedPayload(b, n, tail);
      hide Payload, Marked, IsMarked;
      forall p: Bytes, junk | |p| < 0x1_0000 && b == Marked(|p|, p + junk)
        ensures |p| == n <= |tail| && p == tail[..n]
      {
        assert p + junk == tail;
      }
      if n <= |tail| {
        var p, junk := tail[..n], tail[n..];
        assert p + junk == tail && |p| == n;
        assert b == Marked(|p|, p + junk);
      }
    } else {
      MarkedForms(b);
      hide Marked;
    }
  }

  lemma MarkedForms(b: Bytes)
    ensures forall m: nat, part :: b == Marked(m, part) ==> IsMarked(b)
  {
  }

  lemma MarkedOnce(b: Bytes) returns (n: nat, tail: Bytes)
    requires IsMarked(b)
    ensures n == b[3] as int * 256 + b[4] as int < 0x1_0000 && tail == b[5..] && b == Marked(n, tail)
    ensures forall m: nat, part | m < 0x1_0000 :: b == Marked(m, part) <==> m == n && part == tail
  {
    n, tail := b[3] as int * 256 + b[4], b[5..];
    assert b == Marked(n, tail);
    forall m: nat, part | m < 0x1_0000 && b == Marked(m, part)
      ensures m == n && part == tail
    {
      assert b[3] == m / 256 % 256 && b[4] == m % 256;
    }
  }

  lemma MarkedPayload(b: Bytes, n: nat, tail: Bytes)
    requires IsMarked(b) && n == b[3] as int * 256 + b[4] as int && tail == b[5..]
    ensures Payload(b) == if n == 0 then Err(EmptyCertificate) else if |tail| < n then Err(Truncated) else Ok(tail[..n])
  {
    assert b[..3] == [0x10, 0x01, 0x00] && b[5..5 + if |tail| < n then 0 else n] == tail[..if |tail| < n then 0 else n];
  }

  /** The errors of the extraction: those of the wrapper, and a payload that does not start with a SEQUENCE. */
  lemma NotExtractedExactly(b: Bytes)
    ensures forall e :: Extract(b) == Err(e) <==>
              match e
              case NotDerData => Payload(b).Ok? && Parse(Payload(b).value).None?
              case NotACertificate =>
                Payload(b).Ok? && Parse(Payload(b).value).Some? && !Starts(Payload(b).value, UNIVERSAL, true, TAG_SEQUENCE)
              case _ => Payload(b) == Err(e)
  {
    assert Payload(b) != Err(NotDerData) && Payload(b) != Err(NotACertificate);
    hide Payload, Parse;
    if Payload(b).Ok? {
      StartsExactly(Payload(b).value, UNIVERSAL, true, TAG_SEQUENCE);
    }
  }

  // ---- the integer behind its octets

  function Power256(k: nat): (r: nat)
    ensures r > 0
  {
    if k == 0 then 1 else 256 * Power256(k - 1)
  }

  /** Two's complement: below 128 in the first octet the unsigned value, from there on that less 256 to the length. */
  lemma {:induction false} IntegerIsTwosComplement(b: Bytes)
    requires b != []
    ensures Integer(b) == if b[0] < 128 then Value(b) else Value(b) - Power256(|b|)
  {
    if |b| == 1 {
      assert Init(b) == [] && Power256(1) == 256 * Power256(0);
    } else {
      IntegerIsTwosComplement(Init(b));
    }
  }

  lemma {:induction false} ExtensionKeepsInteger(b: Bytes)
    requires |b| > 1 && ((b[0] == 0 && b[1] < 128) || (b[0] == 255 && b[1] >= 128))
    ensures Integer(b) == Integer(b[1..])
  {
    if |b| == 2 {
      assert Init(b) == [b[0]];
    } else {
      ExtensionKeepsInteger(Init(b));
      assert Init(b)[1..] == Init(b[1..]);
    }
  }

  /** What fits in `k` octets. */
  predicate InOctets(v: int, k: nat) {
    0 - Power256(k) <= 2 * v < Power256(k)
  }

  lemma OneOctetMore(v: int, d: Byte, k: nat)
    requires k > 0
    ensures InOctets(v * 256 + d, k + 1) <==> InOctets(v, k)
  {
    var half := 128 * Power256(k - 1);
    assert Power256(k) == 2 * half && Power256(k + 1) == 512 * half;
    assert -half <= v < half <==> -256 * half <= v * 256 + d < 256 * half;
  }

  /** The octets hold the integer, and unless the first nine bits are alike no fewer do. */
  lemma {:induction false} OctetsNeeded(b: Bytes)
    requires b != []
    ensures InOctets(Integer(b), |b|)
    ensures |b| > 1 ==> (InOctets(Integer(b), |b| - 1) <==> !Minimal(b))
  {
    if |b| == 1 {
      assert Power256(1) == 256 * Power256(0);
    } else {
      OctetsNeeded(Init(b));
      OneOctetMore(Integer(Init(b)), Last(b), |b| - 1);
      if |b| == 2 {
        assert Init(b) == [b[0]] && Power256(1) == 256 * Power256(0);
      } else {
        OneOctetMore(Integer(Init(b)), Last(b), |b| - 2);
      }
    }
  }

  lemma {:induction false} MoreOctetsHold(v: int, j: nat, k: nat)
    requires InOctets(v, j) && j <= k
    ensures InOctets(v, k)
  {
    if j < k { MoreOctetsHold(v, j, k - 1); }
  }

  /** Minimal octets are the fewest that denote the integer: the rule on the first nine bits says exactly that. */
  lemma MinimalIsShortest(b: Bytes)
    ensures Minimal(b) <==> b != [] && forall c: Bytes :: c != [] && Integer(c) == Integer(b) ==> |b| <= |c|
  {
    if b != [] {
      OctetsNeeded(b);
      if Minimal(b) {
        forall c: Bytes | c != [] && Integer(c) == Integer(b)
          ensures |b| <= |c|
        {
          OctetsNeeded(c);
          if |c| < |b| { MoreOctetsHold(Integer(b), |c|, |b| - 1); }
        }
      } else {
        ExtensionKeepsInteger(b);
      }
    }
  }

  // ---- one certificate, octet for octet

  /** A certificate of version 3 and serial 0005: both SEQUENCEs and the INTEGER get one octet shorter. */
  lemma SampleCertificate()
    ensures Normalise([0x30, 0x0B, 0x30, 0x09, 0xA0, 0x03, 0x02, 0x01, 0x02, 0x02, 0x02, 0x00, 0x05])
            == Ok(([0x30, 0x0A, 0x30, 0x08, 0xA0, 0x03, 0x02, 0x01, 0x02, 0x02, 0x01, 0x05],
                   [0x30, 0x09, 0xA0, 0x03, 0x02, 0x01, 0x02, 0x02, 0x02, 0x00, 0x05]))
  {
    var c, d := Sample([0x00, 0x05]), Sample([0x05]);
    SampleIsWellFormed(c.serial);
    SamplePadded();
    SampleMinimal();
    assert ZeroPadded(c.serial) && StripZeros(c.serial) == d.serial by { assert c.serial[1..] == d.serial; }
    hide Encode, ZeroPadded, StripZeros, Normalise, EncodeCert, EncodeTbs, WellFormed;
    NormaliseEncoded(c);
    assert d == c.(serial := StripZeros(c.serial));
  }

  function Sample(serial: Bytes): Cert {
    Cert([0xA0, 0x03, 0x02, 0x01, 0x02], serial, [], [])
  }

  lemma SampleIsWellFormed(serial: Bytes)
    requires 1 <= |serial| <= 2
    ensures WellFormed(Sample(serial))
  {
    SampleEncoded(Sample(serial));
    assert Sample(serial).version == Encode(CONTEXT_SPECIFIC, true, 0, [0x02, 0x01, 0x02]);
  }

  lemma SamplePadded()
    ensures EncodeTbs(Sample([0x00, 0x05])) == [0x30, 0x09, 0xA0, 0x03, 0x02, 0x01, 0x02, 0x02, 0x02, 0x00, 0x05]
    ensures EncodeCert(Sample([0x00, 0x05]))
            == [0x30, 0x0B, 0x30, 0x09, 0xA0, 0x03, 0x02, 0x01, 0x02, 0x02, 0x02, 0x00, 0x05]
  {
    SampleEncoded(Sample([0x00, 0x05]));
    hide EncodeTbs, EncodeCert;
  }

  lemma SampleMinimal()
    ensures EncodeTbs(Sample([0x05])) == [0x30, 0x08, 0xA0, 0x03, 0x02, 0x01, 0x02, 0x02, 0x01, 0x05]
    ensures EncodeCert(Sample([0x05])) == [0x30, 0x0A, 0x30, 0x08, 0xA0, 0x03, 0x02, 0x01, 0x02, 0x02, 0x01, 0x05]
  {
    SampleEncoded(Sample([0x05]));
    hide EncodeTbs, EncodeCert;
  }

  lemma SampleEncoded(c: Cert)
    requires |c.version| == 5 && 1 <= |c.serial| <= 2 && c.tbsRest == c.rest == []
    ensures EncodeTbs(c) == [0x30, 7 + |c.serial|] + c.version + [0x02, |c.serial|] + c.serial
    ensures |CertBody(c)| == 9 + |c.serial| && EncodeCert(c) == [0x30, 9 + |c.serial|] + EncodeTbs(c)
  {
    assert Encode(UNIVERSAL, false, TAG_INTEGER, c.serial) == [0x02, |c.serial|] + c.serial;
    assert TbsBody(c) == c.version + [0x02, |c.serial|] + c.serial;
    assert CertBody(c) == EncodeTbs(c);
  }
}
