/**
 * The octets behind a PCR policy digest: how a selection is marshalled, what one policy
 * hashes octet for octet, and that the digest binds which PCRs were selected.
 */
module PolicyWire {
  import opened Prelude
  import opened Bits
  import opened Pcr
  import opened Policy

  // ---- the marshalled selection

  /**
   * The marshalled selection of a list in raw octets: one entry, the bank in big endian, the
   * number of bitmap octets, and PCR `p` in bit `p % 8` of bitmap octet `p / 8`, set exactly
   * when the list names it.
   */
  lemma MarshalledExactly(a: Alg, pcrs: seq<nat>)
    ensures var m, n := MarshalSelection(Selection(a, BitmapOf(pcrs))), |BitmapOf(pcrs)|;
            && |m| == 7 + n && m[..4] == [0, 0, 0, 1] && m[4] == a / 256 && m[5] == a % 256
            && (n < 256 ==> m[6] == n)
            && (forall p :: p in pcrs ==> p / 8 < n)
            && forall p: nat :: p / 8 < n ==> (p in pcrs <==> IsSet(m[7 + p / 8], p % 8))
  {
    var bitmap := BitmapOf(pcrs);
    var m := MarshalSelection(Selection(a, bitmap));
    BitmapIsTight(pcrs);
    hide BitmapOf, ValueOf, IsSet;
    forall p: nat | p / 8 < |bitmap|
      ensures p in pcrs <==> IsSet(m[7 + p / 8], p % 8)
    {
      BitmapSelectsList(pcrs, p);
      BitOfValue(bitmap[p / 8], p % 8);
      assert m[7 + p / 8] == Octets(bitmap)[p / 8];
    }
  }

  // ---- one policy, octet for octet

  /** The SHA-256 bank and PCR 7 alone. */
  lemma SevenMarshalled()
    ensures MarshalSelection(Selection(SHA256, BitmapOf([7]))) == [0, 0, 0, 1, 0x00, 0x0B, 3, 0x80, 0x00, 0x00]
  {
    var blank := seq(3, i => BLANK);
    assert MaxIndex([7]) == 7 && MarkAll(blank, [7]) == blank[0 := BLANK[7 := true]] by { assert Init([7]) == []; }
    assert BitmapOf([7]) == [BLANK[7 := true], BLANK, BLANK];
    assert ValueOf(BLANK[7 := true]) == 0x80 && ValueOf(BLANK) == 0;
  }

  lemma ZeroAndSevenMarshalled()
    ensures MarshalSelection(Selection(SHA256, BitmapOf([0, 7]))) == [0, 0, 0, 1, 0x00, 0x0B, 3, 0x81, 0x00, 0x00]
  {
    assert Init([0, 7]) == [0] && Init([0]) == [];
    var blank := seq(3, i => BLANK);
    assert MarkAll(blank, []) == blank;
    var bitmap := MarkAll(blank, [0]);
    assert bitmap == blank[0 := BLANK[0 := true]];
    assert bitmap[0] == BLANK[0 := true];
    assert MarkAll(blank, [0, 7]) == bitmap[0 := bitmap[0][7 := true]];
    assert MaxIndex([0]) == 0 && MaxIndex([0, 7]) == 7;
    assert BitmapOf([0, 7]) == [BLANK[0 := true][7 := true], BLANK, BLANK];
    assert ValueOf(BLANK[0 := true][7 := true]) == 0x81 && ValueOf(BLANK) == 0;
  }

  /**
   * A policy over PCRs 0 and 7 with SHA-256 values, whatever else was attested before
   * them: 32 zero octets, the command code, the selection and the hash of the two values
   * in the order of the list.
   */
  lemma SamplePolicy(crypto: Crypto, others: seq<PCR>, d0: Bytes, d7: Bytes)
    requires crypto.size(SHA256) == Some(32) && |d0| == |d7| == 32
    ensures ExpectedDigest(crypto, [0, 7], others + [PCR(7, d7), PCR(0, d0)], SHA256)
            == Ok(crypto.hash(0x000B,
                    [0, 0, 0, 0, 0, 0, 0, 0, 0, 0, 0, 0, 0, 0, 0, 0, 0, 0, 0, 0, 0, 0, 0, 0, 0, 0, 0, 0, 0, 0, 0, 0]
                    + [0x00, 0x00, 0x01, 0x7F]
                    + [0x00, 0x00, 0x00, 0x01, 0x00, 0x0B, 0x03, 0x81, 0x00, 0x00]
                    + crypto.hash(0x000B, d0 + d7)))
  {
    var pcrs, state := [0, 7], others + [PCR(7, d7), PCR(0, d0)];
    assert Init(state) == others + [PCR(7, d7)];
    assert DigestOf(state, 0) == Some(d0) && DigestOf(state, 7) == Some(d7);
    assert pcrs[1..] == [7] && pcrs[1..][1..] == [];
    assert BankOf(state, 0) == Ok(SHA256) && BankOf(state, 7) == Ok(SHA256);
    assert Disagreement(state, [7], SHA256) == None;
    assert PcrBankAlg(pcrs, state) == Ok(SHA256);
    var listed := ListedDigests(pcrs, state);
    assert listed == [d0, d7] && Init(listed) == [d0] && Init([d0]) == [];
    assert Concat([d0]) == [] + d0 == d0;
    assert Concat(listed) == d0 + d7;
    ZeroAndSevenMarshalled();
    hide MarshalSelection;
    assert Zeros(32) == [0, 0, 0, 0, 0, 0, 0, 0, 0, 0, 0, 0, 0, 0, 0, 0, 0, 0, 0, 0, 0, 0, 0, 0, 0, 0, 0, 0, 0, 0, 0, 0];
  }

  // ---- the digest binds the selection

  lemma EqualParts(head: Bytes, m: Bytes, m': Bytes, x: Bytes, y: Bytes)
    requires head + m + x == head + m' + y && |x| == |y|
    ensures m == m' && x == y
  {
    ConcatAssociative(head, m, x);
    ConcatAssociative(head, m', y);
    SameSuffix(head, m + x, m' + y);
    assert |m + x| == |m' + y|;
    assert m == (m + x)[..|m|] == (m' + y)[..|m'|] == m';
    SameSuffix(m, x, y);
  }

  /** Lists marshalled alike name the same PCRs of the same bank. */
  lemma MarshalledBinds(a: Alg, b: Alg, pcrs: seq<nat>, pcrs': seq<nat>)
    requires MarshalSelection(Selection(a, BitmapOf(pcrs))) == MarshalSelection(Selection(b, BitmapOf(pcrs')))
    ensures a == b && forall p :: p in pcrs <==> p in pcrs'
  {
    MarshalledExactly(a, pcrs);
    MarshalledExactly(b, pcrs');
    hide MarshalSelection, BitmapOf, IsSet;
    var m := MarshalSelection(Selection(a, BitmapOf(pcrs)));
    forall p
      ensures p in pcrs <==> p in pcrs'
    {
      if p in pcrs { assert IsSet(m[7 + p / 8], p % 8); }
      if p in pcrs' { assert IsSet(m[7 + p / 8], p % 8); }
    }
  }

  /**
   * Two policies with one digest select the same PCRs of the same bank with the same
   * values in the order of their lists, for a hash of fixed length without collisions on
   * the inputs compared.
   */
  lemma DigestBindsSelection(crypto: Crypto, pcrs: seq<nat>, pcrs': seq<nat>, s: seq<PCR>, t: seq<PCR>, sessionAlg: Alg)
    requires ExpectedDigest(crypto, pcrs, s, sessionAlg).Ok?
    requires ExpectedDigest(crypto, pcrs, s, sessionAlg) == ExpectedDigest(crypto, pcrs', t, sessionAlg)
    requires
      var x, y := Concat(ListedDigests(pcrs, s)), Concat(ListedDigests(pcrs', t));
      var size, a, b := crypto.size(sessionAlg).value, PcrBankAlg(pcrs, s).value, PcrBankAlg(pcrs', t).value;
      && Injective(crypto, sessionAlg, x, y) && |crypto.hash(sessionAlg, x)| == |crypto.hash(sessionAlg, y)|
      && Injective(crypto, sessionAlg, PolicyInputFor(crypto, sessionAlg, size, Selection(a, BitmapOf(pcrs)), x),
                   PolicyInputFor(crypto, sessionAlg, size, Selection(b, BitmapOf(pcrs')), y))
    ensures forall p :: p in pcrs <==> p in pcrs'
    ensures PcrBankAlg(pcrs, s) == PcrBankAlg(pcrs', t)
    ensures ListedDigests(pcrs, s) == ListedDigests(pcrs', t)
  {
    hide MarshalSelection, BitmapOf, Concat, ListedDigests;
    var size, a, b := crypto.size(sessionAlg).value, PcrBankAlg(pcrs, s).value, PcrBankAlg(pcrs', t).value;
    var x, y := ListedDigests(pcrs, s), ListedDigests(pcrs', t);
    EqualParts(Zeros(size) + POLICY_PCR_CODE, MarshalSelection(Selection(a, BitmapOf(pcrs))),
               MarshalSelection(Selection(b, BitmapOf(pcrs'))),
               crypto.hash(sessionAlg, Concat(x)), crypto.hash(sessionAlg, Concat(y)));
    MarshalledBinds(a, b, pcrs, pcrs');
    ListedWidth(pcrs, s, a);
    ListedWidth(pcrs', t, b);
    EqualConcats(x, y, Width(a).value);
  }

  lemma ListedWidth(pcrs: seq<nat>, state: seq<PCR>, a: Alg)
    requires PcrBankAlg(pcrs, state) == Ok(a)
    ensures Width(a).Some? && Width(a).value > 0
    ensures forall k :: 0 <= k < |ListedDigests(pcrs, state)| ==> |ListedDigests(pcrs, state)[k]| == Width(a).value
  {
    BankIsAgreed(pcrs, state);
    assert OneBank(pcrs, state, a);
    assert PcrAlg(|DigestOf(state, pcrs[0]).value|) == Some(a);
  }

  // ---- the bank of a list

  /** The width of the digest attested for position `k` of the list. */
  function WidthAt(pcrs: seq<nat>, state: seq<PCR>, k: nat): Option<nat>
    requires k < |pcrs|
  {
    match DigestOf(state, pcrs[k])
    case None => None
    case Some(d) => Some(|d|)
  }

  predicate IsKnown(width: nat) {
    width in {32, 48, 64}
  }

  /** The first `n` positions are attested with digests of one known width. */
  ghost predicate AgreeBefore(pcrs: seq<nat>, state: seq<PCR>, n: nat) {
    && n <= |pcrs|
    && forall k :: 0 <= k < n ==> WidthAt(pcrs, state, k) == WidthAt(pcrs, state, 0)
                                  && WidthAt(pcrs, state, k).Some? && IsKnown(WidthAt(pcrs, state, k).value)
  }

  /** Position `k` is not attested, or with a width of no bank, or with another than the first. */
  ghost predicate FailsFor(pcrs: seq<nat>, state: seq<PCR>, k: nat, e: PolicyError) {
    && k < |pcrs|
    && match WidthAt(pcrs, state, k)
       case None => e == PCRNotInState(pcrs[k])
       case Some(w) =>
         if !IsKnown(w) then e == UnknownWidth(pcrs[k])
         else WidthAt(pcrs, state, k) != WidthAt(pcrs, state, 0) && e == MixedBanks(pcrs[k])
  }

  /** The first position that fails decides the error. */
  ghost predicate FailsFirstAt(pcrs: seq<nat>, state: seq<PCR>, k: nat, e: PolicyError) {
    AgreeBefore(pcrs, state, k) && FailsFor(pcrs, state, k, e)
  }

  lemma {:induction false} DisagreementIsFirst(pcrs: seq<nat>, state: seq<PCR>, n: nat, a: Alg) returns (k: nat)
    requires 0 < n && AgreeBefore(pcrs, state, n) && BankOf(state, pcrs[0]) == Ok(a)
    ensures match Disagreement(state, pcrs[n..], a)
            case None => AgreeBefore(pcrs, state, |pcrs|)
            case Some(e) => FailsFirstAt(pcrs, state, k, e)
    decreases |pcrs| - n
  {
    k := n;
    if n < |pcrs| {
      assert pcrs[n..][0] == pcrs[n] && pcrs[n..][1..] == pcrs[n + 1..];
      if BankOf(state, pcrs[n]) == Ok(a) {
        k := DisagreementIsFirst(pcrs, state, n + 1, a);
      }
    }
  }

  lemma FirstFailureIsOne(pcrs: seq<nat>, state: seq<PCR>, j: nat, e: PolicyError, k: nat, f: PolicyError)
    requires FailsFirstAt(pcrs, state, j, e) && FailsFirstAt(pcrs, state, k, f)
    ensures j == k && e == f
  {
  }

  /**
   * The bank of a list exactly: with every position attested at 32, 48 or 64 octets it is
   * SHA-256, SHA-384 or SHA-512; otherwise the first position that fails is named, with
   * its cause.
   */
  lemma BankExactly(pcrs: seq<nat>, state: seq<PCR>)
    ensures forall a: Alg :: PcrBankAlg(pcrs, state) == Ok(a) <==>
              && pcrs != [] && AgreeBefore(pcrs, state, |pcrs|)
              && (WidthAt(pcrs, state, 0), a) in {(Some(32), 0x000B), (Some(48), 0x000C), (Some(64), 0x000D)}
    ensures forall e :: PcrBankAlg(pcrs, state) == Err(e) <==>
              (pcrs == [] && e == NoPCRsSelected) || exists k :: FailsFirstAt(pcrs, state, k, e)
  {
    if pcrs != [] {
      match BankOf(state, pcrs[0])
      case Err(e) => assert FailsFirstAt(pcrs, state, 0, e);
      case Ok(a) => var k := DisagreementIsFirst(pcrs, state, 1, a);
    }
    hide PcrBankAlg, WidthAt, IsKnown;
    forall e: PolicyError, f: PolicyError, j: nat, k: nat | FailsFirstAt(pcrs, state, j, e) && FailsFirstAt(pcrs, state, k, f)
      ensures e == f
    {
      FirstFailureIsOne(pcrs, state, j, e, k, f);
    }
  }
}
