/**
 * PCR policies: the digest a TPM computes for a policy session (section 23.7 of TPM 2.0
 * Library Part 3), and its recomputation from attested PCR values without the TPM.
 */
module Policy {
  import opened Prelude
  import opened Bits
  import opened Pcr

  /** The hash algorithms: uninterpreted, with the digest size of those that are supported. */
  datatype Crypto = Crypto(hash: (Alg, Bytes) -> Bytes, size: Alg -> Option<nat>)

  datatype PolicyError =
    | UnsupportedSession | NoPCRsSelected | PCRNotInState(index: nat) | UnknownWidth(index: nat) | MixedBanks(index: nat)

  datatype VerifyError = BadPublic | NotComputed(e: PolicyError) | Mismatch

  datatype Public = Public(nameAlg: Alg, authPolicy: Bytes)

  // ---- the digest of a policy session

  function Octets(bitmap: seq<Octet>): (r: Bytes)
    ensures |r| == |bitmap|
  {
    seq(|bitmap|, i requires 0 <= i < |bitmap| => ValueOf(bitmap[i]))
  }

  /** A TPML_PCR_SELECTION of one entry. */
  function MarshalSelection(s: Selection): Bytes {
    [0, 0, 0, 1, s.hash / 256, s.hash % 256, |s.bitmap| % 256] + Octets(s.bitmap)
  }

  const POLICY_PCR_CODE: Bytes := [0x00, 0x00, 0x01, 0x7F]

  /** policyDigest' = H(policyDigest || TPM_CC_PolicyPCR || pcrs || digestTPM). */
  function PolicyInput(before: Bytes, s: Selection, pcrDigest: Bytes): Bytes {
    before + POLICY_PCR_CODE + MarshalSelection(s) + pcrDigest
  }

  function ExtendPolicy(crypto: Crypto, alg: Alg, before: Bytes, s: Selection, pcrDigest: Bytes): Bytes {
    crypto.hash(alg, PolicyInput(before, s, pcrDigest))
  }

  function Concat(digests: seq<Bytes>): Bytes {
    if digests == [] then [] else Concat(Init(digests)) + Last(digests)
  }

  /** What the TPM hashes: the selected values in order of index. */
  function BankDigest(crypto: Crypto, alg: Alg, bitmap: seq<Octet>, bank: seq<Bytes>): Bytes
    requires |bank| == PCR_COUNT
  {
    crypto.hash(alg, Concat(Digests(Selected(bitmap, bank))))
  }

  class PolicySession {
    const alg: Alg
    var digest: Bytes

    constructor (alg: Alg, size: nat)
      ensures this.alg == alg && digest == Zeros(size)
    {
      this.alg, digest := alg, Zeros(size);
    }
  }

  /** The TPM's PolicyPCR with an empty expected digest, followed by PolicyGetDigest; each fails only if its command does. */
  method PCRPolicy(crypto: Crypto, device: Device, session: PolicySession, s: Selection) returns (r: Result<Bytes, TpmError>)
    requires device.Valid() && s.hash in device.bank
    modifies session, device`count
    ensures device.count == old(device.count) + if device.fails(old(device.count)) then 1 else 2
    ensures r.Err? <==> device.fails(device.count - 1)
    ensures device.fails(old(device.count)) ==> session.digest == old(session.digest)
    ensures !device.fails(old(device.count)) ==>
              session.digest == ExtendPolicy(crypto, session.alg, old(session.digest), s,
                                             BankDigest(crypto, session.alg, s.bitmap, device.bank[s.hash]))
    ensures r.Ok? ==> r.value == session.digest
  {
    var ok := device.Execute();
    if !ok {
      return Err(CommandFailed);
    }
    var pcrDigest := BankDigest(crypto, session.alg, s.bitmap, device.bank[s.hash]);
    session.digest := ExtendPolicy(crypto, session.alg, session.digest, s, pcrDigest);
    ok := device.Execute();
    if !ok {
      return Err(CommandFailed);
    }
    r := Ok(session.digest);
  }

  // ---- the recomputation

  /** The bank a digest was read from, by its width. */
  function PcrAlg(width: nat): Option<Alg> {
    if width == 32 then Some(SHA256) else if width == 48 then Some(SHA384) else if width == 64 then Some(SHA512) else None
  }

  /** The digest attested for an index: of several, the last. */
  function DigestOf(state: seq<PCR>, index: nat): Option<Bytes> {
    if state == [] then None
    else if Last(state).index == index then Some(Last(state).digest)
    else DigestOf(Init(state), index)
  }

  function BankOf(state: seq<PCR>, index: nat): Result<Alg, PolicyError> {
    match DigestOf(state, index)
    case None => Err(PCRNotInState(index))
    case Some(d) =>
      match PcrAlg(|d|)
      case None => Err(UnknownWidth(index))
      case Some(a) => Ok(a)
  }

  /** Why the PCRs from `from` on are not all of bank `a`; None when they are. */
  function Disagreement(state: seq<PCR>, pcrs: seq<nat>, a: Alg): Option<PolicyError> {
    if pcrs == [] then None
    else
      match BankOf(state, pcrs[0])
      case Err(e) => Some(e)
      case Ok(b) => if b != a then Some(MixedBanks(pcrs[0])) else Disagreement(state, pcrs[1..], a)
  }

  /** `pcrBankAlg`. */
  function PcrBankAlg(pcrs: seq<nat>, state: seq<PCR>): Result<Alg, PolicyError> {
    if pcrs == [] then Err(NoPCRsSelected)
    else
      match BankOf(state, pcrs[0])
      case Err(e) => Err(e)
      case Ok(a) =>
        match Disagreement(state, pcrs[1..], a)
        case Some(e) => Err(e)
        case None => Ok(a)
  }

  /** Every selected PCR is attested, in one known bank. */
  ghost predicate OneBank(pcrs: seq<nat>, state: seq<PCR>, a: Alg) {
    forall k :: 0 <= k < |pcrs| ==> DigestOf(state, pcrs[k]).Some? && PcrAlg(|DigestOf(state, pcrs[k]).value|) == Some(a)
  }

  lemma {:induction false} NoDisagreement(state: seq<PCR>, pcrs: seq<nat>, a: Alg)
    ensures Disagreement(state, pcrs, a) == None <==> OneBank(pcrs, state, a)
  {
    if pcrs != [] {
      NoDisagreement(state, pcrs[1..], a);
      assert OneBank(pcrs, state, a) ==> OneBank(pcrs[1..], state, a) by {
        assert forall k :: 0 <= k < |pcrs[1..]| ==> pcrs[1..][k] == pcrs[k + 1];
      }
      assert OneBank(pcrs[1..], state, a) && BankOf(state, pcrs[0]) == Ok(a) ==> OneBank(pcrs, state, a) by {
        assert forall k :: 1 <= k < |pcrs| ==> pcrs[k] == pcrs[1..][k - 1];
      }
    }
  }

  /** The inferred bank is the one every selected PCR was attested in; otherwise there is none. */
  lemma BankIsAgreed(pcrs: seq<nat>, state: seq<PCR>)
    ensures forall a: Alg :: PcrBankAlg(pcrs, state) == Ok(a) <==> pcrs != [] && OneBank(pcrs, state, a)
  {
    forall a: Alg
      ensures PcrBankAlg(pcrs, state) == Ok(a) <==> pcrs != [] && OneBank(pcrs, state, a)
    {
      if pcrs != [] {
        NoDisagreement(state, pcrs, a);
        NoDisagreement(state, pcrs[1..], a);
      }
    }
  }

  function ListedDigests(pcrs: seq<nat>, state: seq<PCR>): seq<Bytes> {
    seq(|pcrs|, k requires 0 <= k < |pcrs| => if DigestOf(state, pcrs[k]).Some? then DigestOf(state, pcrs[k]).value else [])
  }

  /** `computePolicyDigestFromPCRs` as a function. */
  function ExpectedDigest(crypto: Crypto, pcrs: seq<nat>, state: seq<PCR>, sessionAlg: Alg): Result<Bytes, PolicyError> {
    if crypto.size(sessionAlg).None? then Err(UnsupportedSession)
    else
      match PcrBankAlg(pcrs, state)
      case Err(e) => Err(e)
      case Ok(a) =>
        Ok(ExtendPolicy(crypto, sessionAlg, Zeros(crypto.size(sessionAlg).value), Selection(a, BitmapOf(pcrs)),
                        crypto.hash(sessionAlg, Concat(ListedDigests(pcrs, state)))))
  }

  ghost predicate Indexes(m: map<nat, Bytes>, state: seq<PCR>) {
    forall p: nat :: (p in m <==> DigestOf(state, p).Some?) && (p in m ==> DigestOf(state, p) == Some(m[p]))
  }

  method PcrBankAlgOf(selectedPCRs: seq<nat>, digests: map<nat, Bytes>, ghost state: seq<PCR>)
      returns (r: Result<Alg, PolicyError>)
    requires Indexes(digests, state)
    ensures r == PcrBankAlg(selectedPCRs, state)
  {
    if |selectedPCRs| == 0 { return Err(NoPCRsSelected); }
    var firstPCR := selectedPCRs[0];
    if firstPCR !in digests { return Err(PCRNotInState(firstPCR)); }
    var bankAlg := PcrAlg(|digests[firstPCR]|);
    if bankAlg.None? { return Err(UnknownWidth(firstPCR)); }
    var rest := selectedPCRs[1..];
    var i := 0;
    while i < |rest|
      invariant 0 <= i <= |rest|
      invariant Disagreement(state, rest, bankAlg.value) == Disagreement(state, rest[i..], bankAlg.value)
    {
      var idx := rest[i];
      assert rest[i..][1..] == rest[i + 1..];
      if idx !in digests { return Err(PCRNotInState(idx)); }
      var alg := PcrAlg(|digests[idx]|);
      if alg.None? { return Err(UnknownWidth(idx)); }
      if alg.value != bankAlg.value { return Err(MixedBanks(idx)); }
      i := i + 1;
    }
    r := Ok(bankAlg.value);
  }

  /** The recomputation as the program runs it: a map of the state, then a running hash. */
  method ComputePolicyDigestFromPCRs(crypto: Crypto, pcrs: seq<nat>, pcrsState: seq<PCR>, sessionAlg: Alg)
      returns (r: Result<Bytes, PolicyError>)
    ensures r == ExpectedDigest(crypto, pcrs, pcrsState, sessionAlg)
  {
    var size := crypto.size(sessionAlg);
    if size.None? { return Err(UnsupportedSession); }
    var digests: map<nat, Bytes> := map[];
    var i := 0;
    while i < |pcrsState|
      invariant 0 <= i <= |pcrsState|
      invariant Indexes(digests, pcrsState[..i])
    {
      assert Init(pcrsState[..i + 1]) == pcrsState[..i];
      digests := digests[pcrsState[i].index := pcrsState[i].digest];
      i := i + 1;
    }
    assert pcrsState[..i] == pcrsState;
    var bank := PcrBankAlgOf(pcrs, digests, pcrsState);
    if bank.Err? { return Err(bank.error); }
    BankIsAgreed(pcrs, pcrsState);
    var hashed: Bytes := [];
    ghost var listed := ListedDigests(pcrs, pcrsState);
    i := 0;
    while i < |pcrs|
      invariant 0 <= i <= |pcrs|
      invariant hashed == Concat(listed[..i])
    {
      assert Init(listed[..i + 1]) == listed[..i];
      assert pcrs[i] in digests;  // so the program's own check of this never fails here
      hashed := hashed + digests[pcrs[i]];
      i := i + 1;
    }
    assert listed[..i] == listed;
    var pcrDigest := crypto.hash(sessionAlg, hashed);
    r := Ok(ExtendPolicy(crypto, sessionAlg, Zeros(size.value), Selection(bank.value, BitmapOf(pcrs)), pcrDigest));
  }

  /** `VerifyPolicyDigest`; `public` is None when it does not unmarshal. */
  method VerifyPolicyDigest(crypto: Crypto, public: Option<Public>, pcrs: seq<nat>, pcrsState: seq<PCR>)
      returns (r: Result<bool, VerifyError>)
    ensures r.Ok? <==>
              public.Some? && ExpectedDigest(crypto, pcrs, pcrsState, public.value.nameAlg) == Ok(public.value.authPolicy)
    ensures r == Err(BadPublic) <==> public.None?
    ensures r == Err(Mismatch) ==> ExpectedDigest(crypto, pcrs, pcrsState, public.value.nameAlg).Ok?
  {
    if public.None? { return Err(BadPublic); }
    var expected := ComputePolicyDigestFromPCRs(crypto, pcrs, pcrsState, public.value.nameAlg);
    if expected.Err? { return Err(NotComputed(expected.error)); }
    if public.value.authPolicy != expected.value { return Err(Mismatch); }
    r := Ok(true);
  }

  // ---- end to end

  ghost predicate StrictlyAscending(pcrs: seq<nat>) {
    forall j, k :: 0 <= j < k < |pcrs| ==> pcrs[j] < pcrs[k]
  }

  /** The digest PCRPolicy gives on a new session. */
  function DeviceDigest(crypto: Crypto, sessionAlg: Alg, size: nat, s: Selection, bank: seq<Bytes>): Bytes
    requires |bank| == PCR_COUNT
  {
    ExtendPolicy(crypto, sessionAlg, Zeros(size), s, BankDigest(crypto, sessionAlg, s.bitmap, bank))
  }

  lemma {:induction false} DigestOfGathered(state: seq<PCR>, bank: seq<Bytes>, p: nat)
    requires |bank| == PCR_COUNT && FromBank(state, bank) && p in Indices(state)
    ensures p < PCR_COUNT && DigestOf(state, p) == Some(bank[p])
  {
    if Last(state).index != p {
      var k :| 0 <= k < |state| && state[k].index == p;
      assert Init(state)[k].index == p;
      DigestOfGathered(Init(state), bank, p);
    }
  }

  /** In the bitmap of an ascending list, order of index is order of the list. */
  lemma {:induction false} AscendingIsSelected(pcrs: seq<nat>, bank: seq<Bytes>, n: nat, k: nat)
    requires |bank| == PCR_COUNT && StrictlyAscending(pcrs) && k <= |pcrs|
    requires forall i :: 0 <= i < |pcrs| ==> pcrs[i] < PCR_COUNT
    requires forall i :: 0 <= i < |pcrs| ==> (i < k <==> pcrs[i] < n)
    ensures Digests(SelectedUpTo(BitmapOf(pcrs), bank, n)) == seq(k, i requires 0 <= i < k => bank[pcrs[i]])
    decreases n
  {
    if n > 0 {
      var p := n - 1;
      var before := SelectedUpTo(BitmapOf(pcrs), bank, p);
      BitmapSelectsList(pcrs, p);
      if k > 0 && pcrs[k - 1] == p {
        AscendingIsSelected(pcrs, bank, p, k - 1);
        assert p in pcrs;
        assert Digests(before + [PCR(p, bank[p])]) == Digests(before) + [bank[p]];
        assert seq(k, i requires 0 <= i < k => bank[pcrs[i]])
            == seq(k - 1, i requires 0 <= i < k - 1 => bank[pcrs[i]]) + [bank[p]];
      } else {
        assert p !in pcrs;
        AscendingIsSelected(pcrs, bank, p, k);
        assert before + [] == before;
      }
    } else {
      assert pcrs != [] ==> pcrs[0] >= 0;
    }
  }

  lemma ListedIsSelected(pcrs: seq<nat>, state: seq<PCR>, bank: seq<Bytes>)
    requires |bank| == PCR_COUNT && StrictlyAscending(pcrs)
    requires forall p :: p in pcrs ==> p < PCR_COUNT
    requires Gathered(state, bank, Requested(pcrs), {})
    ensures ListedDigests(pcrs, state) == Digests(Selected(BitmapOf(pcrs), bank))
  {
    var n := 8 * |BitmapOf(pcrs)|;
    forall i | 0 <= i < |pcrs| ensures pcrs[i] < n && pcrs[i] < PCR_COUNT && ListedDigests(pcrs, state)[i] == bank[pcrs[i]] {
      assert pcrs[i] in pcrs;
      BitmapSelectsList(pcrs, pcrs[i]);
      DigestOfGathered(state, bank, pcrs[i]);
    }
    AscendingIsSelected(pcrs, bank, n, |pcrs|);
  }

  lemma GatheredIsOneBank(pcrs: seq<nat>, state: seq<PCR>, a: Alg, bank: seq<Bytes>)
    requires IsBank(a, bank) && Width(a).Some? && Gathered(state, bank, Requested(pcrs), {})
    ensures OneBank(pcrs, state, a)
  {
    forall k | 0 <= k < |pcrs|
      ensures DigestOf(state, pcrs[k]).Some? && PcrAlg(|DigestOf(state, pcrs[k]).value|) == Some(a)
    {
      assert pcrs[k] in pcrs;
      DigestOfGathered(state, bank, pcrs[k]);
    }
  }

  /**
   * What the verifier recomputes from a complete reading of a strictly ascending list is
   * what the TPM itself computed for that list, in whichever of the three banks.
   */
  lemma RecomputedIsTheDevices(crypto: Crypto, pcrs: seq<nat>, state: seq<PCR>, a: Alg, bank: seq<Bytes>, sessionAlg: Alg)
    requires pcrs != [] && StrictlyAscending(pcrs) && forall p :: p in pcrs ==> p < PCR_COUNT
    requires IsBank(a, bank) && Width(a).Some? && Gathered(state, bank, Requested(pcrs), {})
    requires crypto.size(sessionAlg).Some?
    ensures ExpectedDigest(crypto, pcrs, state, sessionAlg) ==
              Ok(DeviceDigest(crypto, sessionAlg, crypto.size(sessionAlg).value, Selection(a, BitmapOf(pcrs)), bank))
  {
    GatheredIsOneBank(pcrs, state, a, bank);
    BankIsAgreed(pcrs, state);
    ListedIsSelected(pcrs, state, bank);
  }

  /** No collision between these two inputs. */
  ghost predicate Injective(crypto: Crypto, alg: Alg, x: Bytes, y: Bytes) {
    crypto.hash(alg, x) == crypto.hash(alg, y) ==> x == y
  }

  function PolicyInputFor(crypto: Crypto, sessionAlg: Alg, size: nat, s: Selection, hashed: Bytes): Bytes {
    PolicyInput(Zeros(size), s, crypto.hash(sessionAlg, hashed))
  }

  /** The hash tells apart what the verifier hashes and what the TPM hashes for this policy. */
  ghost predicate NoCollision(crypto: Crypto, pcrs: seq<nat>, listed: seq<Bytes>, a: Alg, bank: seq<Bytes>, sessionAlg: Alg)
    requires |bank| == PCR_COUNT && crypto.size(sessionAlg).Some?
  {
    var s, size := Selection(a, BitmapOf(pcrs)), crypto.size(sessionAlg).value;
    var x, y := Concat(listed), Concat(Digests(Selected(s.bitmap, bank)));
    && Injective(crypto, sessionAlg, x, y)
    && Injective(crypto, sessionAlg, PolicyInputFor(crypto, sessionAlg, size, s, x),
                 PolicyInputFor(crypto, sessionAlg, size, s, y))
  }

  /**
   * For any list, in any order and with repetitions, the recomputation agrees with the
   * TPM exactly when the values in the order of the list are the values in order of index.
   */
  lemma RecomputedExactlyWhenInOrder(crypto: Crypto, pcrs: seq<nat>, state: seq<PCR>, a: Alg,
                                     bank: seq<Bytes>, sessionAlg: Alg)
    requires pcrs != [] && forall p :: p in pcrs ==> p < PCR_COUNT
    requires IsBank(a, bank) && Width(a).Some? && Gathered(state, bank, Requested(pcrs), {})
    requires crypto.size(sessionAlg).Some? && NoCollision(crypto, pcrs, ListedDigests(pcrs, state), a, bank, sessionAlg)
    ensures
      var s, size := Selection(a, BitmapOf(pcrs)), crypto.size(sessionAlg).value;
      ExpectedDigest(crypto, pcrs, state, sessionAlg) == Ok(DeviceDigest(crypto, sessionAlg, size, s, bank))
      <==> ListedDigests(pcrs, state) == Digests(Selected(s.bitmap, bank))
  {
    hide MarshalSelection, BitmapOf, Gathered, Octets;
    GatheredIsOneBank(pcrs, state, a, bank);
    BankIsAgreed(pcrs, state);
    var s, size := Selection(a, BitmapOf(pcrs)), crypto.size(sessionAlg).value;
    var listed, selected := ListedDigests(pcrs, state), Digests(Selected(s.bitmap, bank));
    var x, y := crypto.hash(sessionAlg, Concat(listed)), BankDigest(crypto, sessionAlg, s.bitmap, bank);
    if PolicyInput(Zeros(size), s, x) == PolicyInput(Zeros(size), s, y) {
      SameSuffix(Zeros(size) + POLICY_PCR_CODE + MarshalSelection(s), x, y);
    }
    if Concat(listed) == Concat(selected) {
      SelectedAreFromBank(s.bitmap, bank, 8 * |s.bitmap|);
      EqualConcats(listed, selected, Width(a).value);
    }
  }

  lemma {:induction false} ConcatLength(x: seq<Bytes>, w: nat)
    requires forall k :: 0 <= k < |x| ==> |x[k]| == w
    ensures |Concat(x)| == |x| * w
  {
    if x != [] {
      ConcatLength(Init(x), w);
      assert |x| * w == |Init(x)| * w + w;
    }
  }

  lemma EqualConcats(x: seq<Bytes>, y: seq<Bytes>, w: nat)
    requires w > 0 && Concat(x) == Concat(y)
    requires forall k :: 0 <= k < |x| ==> |x[k]| == w
    requires forall k :: 0 <= k < |y| ==> |y[k]| == w
    ensures x == y
  {
    ConcatLength(x, w);
    ConcatLength(y, w);
    SameFactor(|x|, |y|, w);
    ConcatOfEqualWidths(x, y, w);
  }

  lemma SameFactor(m: nat, n: nat, w: nat)
    requires w > 0 && m * w == n * w
    ensures m == n
  {
  }

  ghost predicate InOrder(values: seq<PCR>) {
    forall j, k :: 0 <= j < k < |values| ==> values[j].index < values[k].index
  }

  lemma {:induction false} SelectedAscends(bitmap: seq<Octet>, bank: seq<Bytes>, n: nat)
    requires |bank| == PCR_COUNT
    ensures InOrder(SelectedUpTo(bitmap, bank, n))
  {
    if n > 0 {
      SelectedAscends(bitmap, bank, n - 1);
      var before, now := SelectedUpTo(bitmap, bank, n - 1), SelectedUpTo(bitmap, bank, n);
      forall j, k | 0 <= j < k < |now|
        ensures now[j].index < now[k].index
      {
        assert now[j] == before[j];
        if k < |before| { assert now[k] == before[k]; }
      }
    }
  }

  /**
   * When the selected PCRs hold different values, a policy over a list is accepted exactly
   * when the list is strictly ascending: the verifier hashes in the order of the list, the
   * TPM in order of index, so no other order and no repetition is ever accepted.
   */
  lemma AcceptedExactlyWhenAscending(crypto: Crypto, pcrs: seq<nat>, state: seq<PCR>, a: Alg,
                                     bank: seq<Bytes>, sessionAlg: Alg)
    requires pcrs != [] && forall p :: p in pcrs ==> p < PCR_COUNT
    requires IsBank(a, bank) && Width(a).Some? && Gathered(state, bank, Requested(pcrs), {})
    requires forall p, q :: p in pcrs && q in pcrs && p != q ==> bank[p] != bank[q]
    requires crypto.size(sessionAlg).Some? && NoCollision(crypto, pcrs, ListedDigests(pcrs, state), a, bank, sessionAlg)
    ensures
      ExpectedDigest(crypto, pcrs, state, sessionAlg)
        == Ok(DeviceDigest(crypto, sessionAlg, crypto.size(sessionAlg).value, Selection(a, BitmapOf(pcrs)), bank))
      <==> StrictlyAscending(pcrs)
  {
    var bitmap := BitmapOf(pcrs);
    var selected := Selected(bitmap, bank);
    RecomputedExactlyWhenInOrder(crypto, pcrs, state, a, bank, sessionAlg);
    if ListedDigests(pcrs, state) == Digests(selected) {
      SelectedAscends(bitmap, bank, 8 * |bitmap|);
      forall k | 0 <= k < |pcrs|
        ensures pcrs[k] == selected[k].index
      {
        ListedIndex(pcrs, state, bank, k);
      }
      assert |selected| == |Digests(selected)| == |pcrs|;
      forall j, k | 0 <= j < k < |pcrs|
        ensures pcrs[j] < pcrs[k]
      {
        assert InOrder(selected) && pcrs[j] == selected[j].index && pcrs[k] == selected[k].index;
      }
    } else if StrictlyAscending(pcrs) {
      ListedIsSelected(pcrs, state, bank);
    }
  }

  /** Where the two orders give the same values, and values tell PCRs apart, they give the same PCRs. */
  lemma ListedIndex(pcrs: seq<nat>, state: seq<PCR>, bank: seq<Bytes>, k: nat)
    requires |bank| == PCR_COUNT && k < |pcrs| && forall p :: p in pcrs ==> p < PCR_COUNT
    requires Gathered(state, bank, Requested(pcrs), {})
    requires forall p, q :: p in pcrs && q in pcrs && p != q ==> bank[p] != bank[q]
    requires ListedDigests(pcrs, state) == Digests(Selected(BitmapOf(pcrs), bank))
    ensures |Selected(BitmapOf(pcrs), bank)| == |pcrs| && pcrs[k] == Selected(BitmapOf(pcrs), bank)[k].index
  {
    var bitmap := BitmapOf(pcrs);
    var n := 8 * |bitmap|;
    var selected := Selected(bitmap, bank);
    assert |selected| == |Digests(selected)| == |pcrs|;
    var q := selected[k].index;
    assert pcrs[k] in pcrs && q in Indices(selected);
    DigestOfGathered(state, bank, pcrs[k]);
    SelectedAreFromBank(bitmap, bank, n);
    SelectedIndices(bitmap, bank, n, q);
    BitmapSelectsList(pcrs, q);
    assert ListedDigests(pcrs, state)[k] == Digests(selected)[k];
  }

  lemma SameSuffix(prefix: Bytes, x: Bytes, y: Bytes)
    requires prefix + x == prefix + y
    ensures x == y
  {
    assert x == (prefix + x)[|prefix|..] == (prefix + y)[|prefix|..] == y;
  }

  /** Command `n` of the device neither fails nor, if it is a read, gives an empty answer. */
  ghost predicate Responsive(device: Device, n: nat) {
    && !device.fails(n)
    && forall s :: |device.answers(n, s).selections| > 0 && |device.answers(n, s).selections[0].bitmap| > 0
  }

  lemma ReadingStopped(device: Device, n: nat, e: ReadError)
    requires match e
             case NotRead(cause) => cause == CommandFailed && device.fails(n)
             case Absent(_, missing) =>
               exists a :: var r := device.answers(n, Selection(a, BitmapOf(missing)));
                           |r.selections| == 0 || |r.selections[0].bitmap| == 0
    ensures !Responsive(device, n)
  {
  }

  /**
   * The promise of the three parts together: a policy made on a device is accepted
   * against a reading of the same device, however it batches its answers. It is never
   * refused, and it is not reached only if no full bank is allocated, a command of this
   * very attempt failed, or one of its reads got an empty answer.
   */
  method AttestedPolicyIsAccepted(crypto: Crypto, device: Device, pcrs: seq<nat>, sessionAlg: Alg)
      returns (accepted: Option<bool>)
    requires device.Valid() && pcrs != [] && StrictlyAscending(pcrs) && forall p :: p in pcrs ==> p < PCR_COUNT
    requires crypto.size(sessionAlg).Some?
    modifies device`count
    ensures old(device.count) < device.count
    ensures accepted != Some(false)
    ensures (exists a: Alg :: IsPreferred(device.allocation, a))
            && (forall n :: old(device.count) <= n < device.count ==> Responsive(device, n))
            ==> accepted == Some(true)
  {
    hide IsPreferred, Gathered, ExpectedDigest, ExtendPolicy, BankDigest;
    ghost var start := device.count;
    var tpm := new TPM(device);
    var selection := tpm.SelectPCRs(pcrs);
    if selection.Err? {
      if selection.error == CommandFailed {
        assert !Responsive(device, start);
      } else {
        assert forall a: Alg :: !IsPreferred(device.allocation, a);
      }
      return None;
    }
    var session := new PolicySession(sessionAlg, crypto.size(sessionAlg).value);
    PreferredIsBank(device, selection.value.hash);
    var policy := PCRPolicy(crypto, device, session, selection.value);
    if policy.Err? {
      assert !Responsive(device, device.count - 1);
      return None;
    }
    var reading := tpm.ReadPCRs(pcrs);
    if reading.Err? {
      assert IsPreferred(device.allocation, selection.value.hash);
      ReadingStopped(device, device.count - 1, reading.error);
      return None;
    }
    var public := Public(sessionAlg, policy.value);
    RecomputedIsTheDevices(crypto, pcrs, reading.value, selection.value.hash, device.bank[selection.value.hash], sessionAlg);
    var verdict := VerifyPolicyDigest(crypto, Some(public), pcrs, reading.value);
    accepted := Some(verdict.Ok?);
  }

  lemma PreferredIsBank(device: Device, a: Alg)
    requires device.Valid() && IsPreferred(device.allocation, a)
    ensures a in device.bank && IsBank(a, device.bank[a]) && Width(a).Some?
    ensures forall b :: IsPreferred(device.allocation, b) ==> b == a
  {
  }

  // ---- what a digest binds

  lemma {:induction false} ConcatOfEqualWidths(x: seq<Bytes>, y: seq<Bytes>, w: nat)
    requires |x| == |y| && Concat(x) == Concat(y)
    requires forall k :: 0 <= k < |x| ==> |x[k]| == w && |y[k]| == w
    ensures x == y
  {
    if x != [] {
      var cx, cy := Concat(Init(x)), Concat(Init(y));
      assert Concat(x) == cx + Last(x) && Concat(y) == cy + Last(y);
      assert cx == Concat(x)[..|Concat(x)| - w] && cy == Concat(y)[..|Concat(y)| - w];
      assert Last(x) == Concat(x)[|cx|..] && Last(y) == Concat(y)[|cy|..];
      ConcatOfEqualWidths(Init(x), Init(y), w);
      assert x == Init(x) + [Last(x)] && y == Init(y) + [Last(y)];
    } else {
      assert y == [];
    }
  }

  lemma MarshalledSelectionNames(a: Alg, b: Alg, bitmap: seq<Octet>)
    requires MarshalSelection(Selection(a, bitmap)) == MarshalSelection(Selection(b, bitmap))
    ensures a == b
  {
    var x, y := MarshalSelection(Selection(a, bitmap)), MarshalSelection(Selection(b, bitmap));
    assert x[4] == a / 256 && x[5] == a % 256 && y[4] == b / 256 && y[5] == b % 256;
  }

  lemma PolicyInputNames(size: nat, a: Alg, b: Alg, bitmap: seq<Octet>, x: Bytes, y: Bytes)
    requires PolicyInput(Zeros(size), Selection(a, bitmap), x) == PolicyInput(Zeros(size), Selection(b, bitmap), y)
    ensures a == b && x == y
  {
    var head := Zeros(size) + POLICY_PCR_CODE;
    var ma, mb := MarshalSelection(Selection(a, bitmap)), MarshalSelection(Selection(b, bitmap));
    ConcatAssociative(head, ma, x);
    ConcatAssociative(head, mb, y);
    SameSuffix(head, ma + x, mb + y);
    assert ma == (ma + x)[..|ma|] && mb == (mb + y)[..|mb|];
    MarshalledSelectionNames(a, b, bitmap);
    SameSuffix(ma, x, y);
  }

  /**
   * The digest binds the state: two attested states giving the same digest for one
   * policy come from the same bank and agree on every selected PCR, for a hash without
   * collisions on the inputs compared. What counts of an index attested twice is the
   * last entry.
   */
  lemma DigestBindsState(crypto: Crypto, pcrs: seq<nat>, s: seq<PCR>, t: seq<PCR>, sessionAlg: Alg)
    requires ExpectedDigest(crypto, pcrs, s, sessionAlg).Ok?
    requires ExpectedDigest(crypto, pcrs, s, sessionAlg) == ExpectedDigest(crypto, pcrs, t, sessionAlg)
    requires Injective(crypto, sessionAlg, Concat(ListedDigests(pcrs, s)), Concat(ListedDigests(pcrs, t)))
    requires
      var size, a, b := crypto.size(sessionAlg).value, PcrBankAlg(pcrs, s).value, PcrBankAlg(pcrs, t).value;
      Injective(crypto, sessionAlg,
                PolicyInputFor(crypto, sessionAlg, size, Selection(a, BitmapOf(pcrs)), Concat(ListedDigests(pcrs, s))),
                PolicyInputFor(crypto, sessionAlg, size, Selection(b, BitmapOf(pcrs)), Concat(ListedDigests(pcrs, t))))
    ensures PcrBankAlg(pcrs, s) == PcrBankAlg(pcrs, t)
    ensures forall p :: p in pcrs ==> DigestOf(s, p).Some? && DigestOf(s, p) == DigestOf(t, p)
  {
    var size, a, b := crypto.size(sessionAlg).value, PcrBankAlg(pcrs, s).value, PcrBankAlg(pcrs, t).value;
    var x, y := ListedDigests(pcrs, s), ListedDigests(pcrs, t);
    PolicyInputNames(size, a, b, BitmapOf(pcrs), crypto.hash(sessionAlg, Concat(x)), crypto.hash(sessionAlg, Concat(y)));
    BankIsAgreed(pcrs, s);
    BankIsAgreed(pcrs, t);
    ConcatOfEqualWidths(x, y, Width(a).value);
    forall p | p in pcrs
      ensures DigestOf(s, p).Some? && DigestOf(s, p) == DigestOf(t, p)
    {
      var k :| 0 <= k < |pcrs| && pcrs[k] == p;
      assert x[k] == y[k];
    }
  }

  /** Position `k` of the state holds the index, and no later one does. */
  ghost predicate HoldsLast(state: seq<PCR>, index: nat, k: nat) {
    && k < |state| && state[k].index == index
    && forall j :: k < j < |state| ==> state[j].index != index
  }

  /**
   * What the verifier takes for an index is the digest at the greatest position that holds
   * it: of several entries the last one counts, and without any there is none.
   */
  lemma {:induction false} LastEntryCounts(state: seq<PCR>, index: nat)
    ensures DigestOf(state, index).None? <==> forall k :: 0 <= k < |state| ==> state[k].index != index
    ensures forall k: nat :: HoldsLast(state, index, k) ==> DigestOf(state, index) == Some(state[k].digest)
    ensures DigestOf(state, index).Some? ==> exists k: nat :: HoldsLast(state, index, k)
  {
    if state != [] {
      LastEntryCounts(Init(state), index);
      if Last(state).index == index {
        assert HoldsLast(state, index, |state| - 1);
      } else {
        forall k: nat | HoldsLast(state, index, k) ensures HoldsLast(Init(state), index, k) {}
        if k: nat :| HoldsLast(Init(state), index, k) { assert HoldsLast(state, index, k); }
      }
    }
  }
}
