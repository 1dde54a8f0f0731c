# Verification of the attestation client's stateful core

A Dafny model of five parts of the repository that carry state, loops or byte layouts, and
proofs of what each promises.

1. **Redfish client** (`RedfishSite`, `RedfishRaw`, `RedfishState`, `RedfishCalls`, `RedfishSteps`,
   `RedfishTheorems`, `RedfishQuiet`, `RedfishLimits`, `RedfishClient`, `RedfishWitness`).
   A BMC is a fixed map from path to content, and an adversary says which reads fail transiently.
   `RedfishSite` says what the failure-free, uncached search of the whole BMC finds, and `RedfishRaw` what that
   means in the fields of the BMC's own resources. `RedfishState` is the
   client's state as a value, with its invariant. `RedfishCalls` gives every operation as a function of that
   state and of the failing reads: result, caches, and reads in order; a run is any sequence of such calls.
   `RedfishClient` is the client as a class, with its manager, snapshot, target and port caches, and slices a
   caller could write through; each method is proved equal to its function. `RedfishSteps` proves the
   invariant of every run, `RedfishTheorems` what a caller may conclude whatever fails, `RedfishQuiet` what is
   exact when nothing does, and `RedfishLimits` exactly when a clean miss can be wrong.
2. **EK certificates and signatures** (`Der`, `DerExact`, `Certificate`, `CertificateExact`, `Signature`). One tag-length-value layer
   (sections 8.1 and 10.1 of X.690, INTEGER by section 8.3), the serial-number normaliser over the layout of
   section 4.1 of RFC 5280, and the ECDSA conversion of section 2.2.3 of RFC 3279.
3. **PCRs and policies** (`Bits`, `Pcr`, `Policy`, `PolicyWire`). Bank choice, gathering of PCR values over partial
   responses (section 22.4 of TPM 2.0 Library Part 3), and the off-device recomputation of a policy digest
   (section 23.7 there), over an uninterpreted hash.
4. **NIC enumeration** (`Sysfs`, `Iommu`, `IommuTheorems`, `IommuRaw`). Grouping of netdevs into shared function
   objects, one deduplicated verdict each, and properties of a whole enumeration and of two of them.
5. **Framing and chunked reads** (`Wrap`, `WrapExact`, `Blob`, `NvStorage`). Sealing in chunks over an arbitrary,
   possibly random sealer, the packed blob format, and NV reading with 16-bit offsets.

Each imperative operation is a method proved equal to a function or to a relation, and the promises are
lemmas about that function or relation. Devices are oracles: which reads or commands fail, and what a read
yields, is a function of its number, and results are tied to it. Lemmas named in the table that hold only
under an assumption about the environment say so in their `requires`.

## What the proofs found

- A policy over a list that is not strictly ascending is refused whenever the PCR values differ: the
  verifier hashes in the order of the list, the TPM in order of index (`Policy.AcceptedExactlyWhenAscending`).
- An empty payload wraps without complaint and is refused by `Unwrap` (`Wrap.UnwrapUndoesWrap`).
- A negative R or S in a DER signature is accepted and loses its sign (`Signature.NegativeLosesItsSign`).
- A padded certificate is only ever refused for its length, past 2^31 bytes (`Certificate.StrippingUndoesPadding`).
- Interface names and PCI addresses share one deduplication table: a function would lose its entry exactly if
  an interface with an unreadable device link were named like its address (`IommuTheorems.ReasonIsKeptUnlessShadowed`).
  Linux refuses ':' in interface names, so no real host gets there (`IommuTheorems.NothingExposedIsEverDropped`).
- `Pack` never complains about a field too large for its width; the round trip holds exactly when every
  field fits (`Blob.UnpackUndoesPackExactlyInRange`).
- The NV block size is truncated to 16 bits before use; one that is a multiple of 65536 makes no progress
  (`NvStorage.ProgressExactlyWhenLowBitsAreSet`).
- The clean-miss promise of the Redfish client holds for a present MAC exactly unless every listed member is
  served and every searched entry is no adapter or can come to be resolved, when some reads fail, to one that
  does not list the MAC (`RedfishLimits.CleanMissesAreTrueExactly`). Where slot and target URI lead to one set
  of ports that is impossible. Where they disagree, one failed read of the target is enough: the client, run on
  such a BMC, remembers the wrong adapter and misses the device, then and later (`RedfishWitness.MissTheDevice`).
- While no read has failed, slot and URI need not agree: every lookup is exact (`RedfishQuiet.QuietRunIsExact`).

## Model

| member | source | states |
|---|---|---|
| RedfishTheorems.CleanMissIsTrue | pkg/redfish/redfish.go:305-477 | Over any run, whatever reads failed before or during the call, a miss that does not say "some were unreadable" means the BMC has no such device in its own fields: no SPDM component of the whole collection whose target, or an adapter in its slot, has a readable port with an entry that, trimmed, is the MAC up to case; where slot and URI agree |
| RedfishLimits.CleanMissHappensExactly | pkg/redfish/redfish.go:305-477 | A clean miss of a MAC can happen in some run exactly when every listed member is served and every searched entry is no adapter or may come to be resolved to one without the MAC |
| RedfishLimits.CleanMissesAreTrueExactly | pkg/redfish/redfish.go:305-477 | The clean-miss promise holds for a MAC over every run exactly when the MAC is absent or that condition fails |
| RedfishLimits.AgreementKeepsThePromise | pkg/redfish/redfish.go:391-438 | Where slot and URI agree the condition fails for every present MAC |
| RedfishWitness.MissTheDevice | pkg/redfish/redfish.go:391-438 | The client itself, on a BMC where they disagree: one failed read, a clean miss of a device that is there, and the same miss again, with no read made, when nothing fails any more |
| RedfishTheorems.AfterCleanMiss | pkg/redfish/redfish.go:275-477 | After one clean miss every later lookup, for any MAC, issues no request, and finds a match exactly when such a device is on the BMC, in the same raw fields |
| RedfishTheorems.FoundIsReal | pkg/redfish/redfish.go:313-353 | A match is a listed SPDM entry whose own adapter carries the MAC, in the spelling returned |
| RedfishTheorems.FoundIsOnBmc | pkg/redfish/redfish.go:313-353 | Whatever failed, and whether or not slot and URI agree, a match is a device on the BMC in the raw fields: its component, adapter, port and entry, with that entry trimmed as the spelling returned |
| RedfishTheorems.HitIsTheFirst | pkg/redfish/redfish.go:313-353 | Every entry before the match, in the order of the search, does not report the MAC or was obstructed in this very call |
| RedfishTheorems.BareHitMeansNoMeasuredOne | pkg/redfish/redfish.go:313-327 | An entry without measurements is returned only if each measured one that reports the MAC is still pending or was obstructed in this very call |
| RedfishTheorems.QuietLookupIsExact | pkg/redfish/redfish.go:305-359 | A call during which nothing fails transiently matches exactly when such a device is on the BMC, whatever failed before, where slot and URI agree |
| RedfishQuiet.QuietRunIsExact | pkg/redfish/redfish.go:305-477 | Over a run in which no read failed every lookup is exact, whether or not slot and URI agree |
| RedfishTheorems.UnreadableMissHasACause | pkg/redfish/redfish.go:325-357 | "Some were unreadable" is said only for a transient failure of this call or something the BMC never serves |
| RedfishTheorems.MembersAreReadOnce | pkg/redfish/redfish.go:275-299 | Over a run the members are exactly the successful member reads, in order; with the pending ones they are a permutation of the listing |
| RedfishTheorems.PendingOnlyShrinks | pkg/redfish/redfish.go:286-297 | Between any two states of a run the snapshot only gains members and the pending list is a sub-sequence of what it was |
| RedfishTheorems.QuoteAnswerIsTrue | pkg/redfish/redfish.go:498-521 | "No quote support" means no TPM member of the full collection has an action and a target URI that differs from the listed manager path at most in trailing slashes; an action returned is such a member's |
| RedfishQuiet.QuietQuoteIsExact | pkg/redfish/redfish.go:498-521 | A request for the quote during which nothing fails gives the answer the BMC's content determines, in each of its five cases, told from raw URIs |
| RedfishQuiet.ManagerFailureHasACause | pkg/redfish/redfish.go:214-235 | The manager is given up only when it is not known yet and either not to be had or its one read failed in this very call |
| RedfishTheorems.PortCacheIsExact | pkg/redfish/redfish.go:443-487 | A remembered port list is, position by position, the trimmed entries of the ports themselves in order, all of which are readable; answering from it gives the first entry that is the MAC up to case |
| RedfishTheorems.DecidedIsReference | pkg/redfish/redfish.go:372-448 | What the caches say of an entry is what the failure-free search says |
| RedfishTheorems.SettledMeansSilent | pkg/redfish/redfish.go:333-345 | An entry read to the end without a match does not report the MAC |
| RedfishTheorems.CachedAnswerIsExact | pkg/redfish/redfish.go:327-358 | A search of complete caches finds a match exactly when some entry reports the MAC |
| RedfishTheorems.CompleteStays | pkg/redfish/redfish.go:275-477 | Once every entry is decided it stays so, and a lookup reads nothing |
| RedfishTheorems.UsedAdapterIsReference | pkg/redfish/redfish.go:372-438 | However reads failed, the adapter used for an entry has the ports of the failure-free one, where slot and URI agree |
| RedfishTheorems.QuietlyPassedOverMeansSilent | pkg/redfish/redfish.go:333-345 | Without transient failures an entry passed over does not report the MAC |
| RedfishSteps.RunInv | pkg/redfish/redfish.go:60-77 | In every run each state satisfies the invariant tying manager, snapshot, targets and port MACs to the BMC's content, and each call does what is allowed |
| RedfishSteps.StepKeepsInv | pkg/redfish/redfish.go:60-77 | Every call keeps that invariant, and its snapshot only advances |
| RedfishSteps.RunGrows | pkg/redfish/redfish.go:60-89 | A further call on a client prolongs its run, its reads numbered on from those made |
| RedfishSteps.ResolveTargetTells | pkg/redfish/redfish.go:391-438 | "None" is so and "could not tell" has its cause; without transient failures the resolution is the reference one |
| RedfishSteps.ReadPortsTells | pkg/redfish/redfish.go:454-468 | A match is listed by a port; without one the MACs are all ports' in order, or some port was unreadable; without failures the scan is the reference one |
| RedfishSteps.AdapterMACSearches | pkg/redfish/redfish.go:443-477 | Only complete port lists are remembered, a match is carried, and "could not tell" has its cause |
| RedfishSteps.TargetAdapterSeeks | pkg/redfish/redfish.go:372-388 | Only true targets are remembered, under a non-empty id; "could not tell" is not remembered and has its cause |
| RedfishSteps.SearchSearches | pkg/redfish/redfish.go:325-358 | Whatever the rest of a search gives is a legitimate outcome: match, clean miss, or miss with a cause |
| RedfishState.AllowedKeepsInv | pkg/redfish/redfish.go:60-77 | What a call is allowed to do keeps the invariant |
| RedfishState.RefreshKeepsTruth | pkg/redfish/redfish.go:286-298 | A refresh keeps members plus pending a permutation of the listing, and pending a sub-sequence of it and of what it was |
| RedfishState.SnappedKeepsTruth | pkg/redfish/redfish.go:275-299 | The same with the first listing, a failed one of which is not remembered |
| RedfishState.SearchOrderKeepsAll | pkg/redfish/redfish.go:316-327 | Measured entries first: the reordered list has exactly the snapshot's entries |
| RedfishState.MeasuredComeFirst | pkg/redfish/redfish.go:316-327 | Every measured entry precedes every other in the order of the search |
| RedfishState.SearchOneMore | pkg/redfish/redfish.go:327-345 | One more entry tried keeps what the search knows: settled or obstructed, and whether to say "unreadable" |
| RedfishState.SearchHits | pkg/redfish/redfish.go:346-352 | A match after those entries is a legitimate outcome of the call |
| RedfishState.SearchEnds | pkg/redfish/redfish.go:354-358 | So is the miss at the end, with "unreadable" exactly as accumulated |
| RedfishSite.EarlyExitAgrees | pkg/redfish/redfish.go:454-468 | The first match over the growing list of MACs is the first match over the whole |
| RedfishSite.CachedScanAgrees | pkg/redfish/redfish.go:447-468 | Hence the scan with early exit and the match against the remembered list agree, spelling included |
| RedfishSite.CarriedIsHit | pkg/redfish/redfish.go:443-468 | A MAC that some readable port lists is found |
| RedfishSite.ScanSlotFinds | pkg/redfish/redfish.go:415-438 | The slot fallback finds an adapter in the slot exactly when a readable one is there |
| RedfishSite.ResolutionAgrees | pkg/redfish/redfish.go:391-438 | Where slot and URI agree, every resolution that can succeed has the failure-free adapter's ports |
| RedfishSite.MatchMACAppend | pkg/redfish/redfish.go:479-487 | A match is not changed by appending further MACs |
| RedfishRaw.AllMACsLists | pkg/redfish/redfish.go:454-468 | All MACs are known exactly when every port is readable; they are then each port's own entries, every one trimmed, in order |
| RedfishRaw.MatchIsTheFirst | pkg/redfish/redfish.go:479-487 | A match is the first entry that is the MAC up to case, in its own spelling |
| RedfishRaw.PortScanExactly | pkg/redfish/redfish.go:443-477 | A scan hits exactly when some entry of some readable port is the MAC; it definitely misses exactly when none is and every port is readable |
| RedfishRaw.ResolvesExactly | pkg/redfish/redfish.go:391-438 | A component resolves to its own target if that has ports, and else exactly if some readable adapter of the collection has ports, location type "Slot" and the ordinal its id names |
| RedfishRaw.FirstInSlotIsTaken | pkg/redfish/redfish.go:415-438 | The adapter taken is the first such of the collection, under its own path; without one there is none |
| RedfishRaw.NotAdapterExactly | pkg/redfish/redfish.go:391-438 | It is definitely no adapter exactly when its target is readable without ports and no slot is named, or its collection and every adapter there are readable and none is in that slot |
| RedfishRaw.PresentIsOnBmc | pkg/redfish/redfish.go:305-477 | The failure-free search finds a MAC exactly when a device with it is on the BMC in the raw fields |
| RedfishRaw.TrimSlashesTrims | pkg/redfish/redfish.go:232 | All trailing slashes are cut and nothing else |
| RedfishRaw.TrimSlashesEqual | pkg/redfish/redfish.go:508 | Two URIs are taken for one exactly when they differ at most in trailing slashes |
| RedfishClient.Bmc.Fetch | pkg/redfish/redfish.go:102-151 | Read n fails if the adversary says so, and otherwise reports the lasting content, 404 or undecodable body of its path |
| RedfishClient.Client.constructor | pkg/redfish/redfish.go:82-89 | A new client has empty caches |
| RedfishClient.Client.ComponentIntegrityFor | pkg/redfish/redfish.go:305-359 | Result, new caches and reads in order are exactly those of the call as a function of the old caches and the failing reads; what is handed out is a fresh copy out of the client's reach |
| RedfishClient.Client.QuoteTarget | pkg/redfish/redfish.go:498-521 | The same for the request for the BMC's own quote |
| RedfishClient.Client.ComponentIntegrities | pkg/redfish/redfish.go:275-299 | Lists once, then reads exactly the pending members once each, in order |
| RedfishClient.Client.ReadPending | pkg/redfish/redfish.go:286-298 | What is answered joins the members in order, the rest stays pending in order, one error for each |
| RedfishClient.Client.ListMembers | pkg/redfish/redfish.go:276-285 | A failed listing leaves no snapshot; a successful one leaves every member pending |
| RedfishClient.Client.ManagerPath | pkg/redfish/redfish.go:214-235 | Resolved once: the only member of the collection without its trailing slashes, or an error that is not remembered |
| RedfishClient.Client.TargetAdapter | pkg/redfish/redfish.go:372-388 | The cached target, or exactly the resolution of the component, remembered unless it could not be told or the id is empty |
| RedfishClient.Client.ResolveTarget | pkg/redfish/redfish.go:391-438 | Exactly the three-way resolution for the reads that fail |
| RedfishClient.Client.FindInSlot | pkg/redfish/redfish.go:416-431 | The first readable adapter in the slot, and whether a candidate before it was unreadable |
| RedfishClient.Client.AdapterMAC | pkg/redfish/redfish.go:443-477 | The cached answer, or exactly that of reading the ports, remembered only when every port was read without a match |
| RedfishClient.Client.ReadPorts | pkg/redfish/redfish.go:454-468 | Port by port until the first match; otherwise all MACs in order and whether a port was unreadable |
| RedfishClient.Client.Search | pkg/redfish/redfish.go:313-358 | The first entry of the search order that matches, or the miss as accumulated, over exactly the entries before it |
| RedfishClient.Client.Partition | pkg/redfish/redfish.go:316-327 | Measured entries first, each group in the snapshot's order |
| RedfishClient.Client.HandOver | pkg/redfish/redfish.go:346-351 | A match is handed out as fresh copies of its measurements and controllers |
| RedfishClient.Client.FindQuote | pkg/redfish/redfish.go:507-520 | The first TPM member targeting the manager with an action; none is only definitive when nothing is pending |
| Der.ParseEncoded | pkg/tpm/cert.go:128-158 | Parsing an encoded element gives it back with its own bytes and what followed, exactly when its length is below 2^31 |
| Der.ParseCanonical | pkg/tpm/cert.go:128-158 | An element is accepted only in its one encoding |
| Der.LengthRoundTrip | pkg/tpm/cert.go:174-207 | Length octets of any size read back |
| Der.LengthCanonical | pkg/tpm/cert.go:128-158 | Only minimal length octets are accepted (section 10.1 of X.690) |
| DerExact.ParseExactly | pkg/tpm/cert.go:128-158 | For every string and every tag number below 2^31: an element is accepted exactly when the string starts with its identifier octets, the shortest length octets and its contents |
| Certificate.StripSerialNumberLeadingNullBytes | pkg/tpm/cert.go:126-208 | The stripping loop and the rebuilding by appends compute the normaliser, each refusal included |
| Certificate.NormaliseEncoded | pkg/tpm/cert.go:126-208 | On any well-formed certificate: re-encoded with its serial stripped if that is padded, refused otherwise |
| Certificate.AcceptedExactly | pkg/tpm/cert.go:126-208 | Accepted are exactly the well-formed certificates with a zero-padded serial |
| Certificate.StrippingUndoesPadding | pkg/tpm/cert.go:126-208 | Padding a minimal non-negative serial with any number of zero octets and re-encoding both SEQUENCEs, then normalising, gives the original byte for byte and the padded TBS, unless the result is too long to parse |
| Certificate.AcceptedBecomesMinimal | pkg/tpm/cert.go:165-207 | The output is well-formed with a minimal serial of the same integer, all else unchanged; the TBS is the input's; a second normalisation is refused |
| Certificate.StripZerosKeepsInteger | pkg/tpm/cert.go:165-168 | Stripping gives minimal octets of the same integer |
| Certificate.ExtractedExactly | pkg/tpm/cert.go:96-122 | Extracted is exactly a SEQUENCE at the start of the payload, whatever follows |
| Certificate.WrapperIsTransparent | pkg/tpm/cert.go:96-122 | A certificate is found both bare and wrapped, with the same result |
| CertificateExact.PayloadExactly | pkg/tpm/cert.go:99-112 | Behind the five-octet marker the payload is exactly as many octets as announced; an empty and a cut-off one are told apart; without the marker it is the whole string |
| CertificateExact.NotExtractedExactly | pkg/tpm/cert.go:96-122 | Each extraction error is returned exactly for the strings with that fault |
| CertificateExact.RefusedExactly | pkg/tpm/cert.go:126-172 | Each of the nine refusals is returned exactly for the certificates with that fault, looked for from the outside in |
| CertificateExact.IntegerIsTwosComplement | pkg/tpm/signature.go:72-79 | Contents octets are read as the two's complement of their unsigned value |
| CertificateExact.MinimalIsShortest | pkg/tpm/cert.go:165-168 | The rule on the first nine bits says exactly that no shorter octets denote the same integer |
| CertificateExact.SampleCertificate | pkg/tpm/cert.go:126-208 | One certificate octet for octet: both length octets and the INTEGER shrink |
| Certificate.ParseEKCertificate | pkg/tpm/cert.go:48-92 | A strictly parsed certificate is untouched; otherwise the fields come from the normalised encoding while raw and TBS bytes stay the stored ones, and each failure names its cause |
| Signature.TpmToDerToTpm | pkg/tpm/signature.go:35-94 | From the TPM's form to DER and back both integers survive and only leading zeros are lost |
| Signature.DerToTpmToDer | pkg/tpm/signature.go:35-94 | From DER to the TPM's form and back is the identity exactly on two minimal INTEGERs with clear sign bits and no byte to spare |
| Signature.AcceptedSignatureIsTwoIntegers | pkg/tpm/signature.go:72-79 | Accepted is exactly a SEQUENCE starting with two minimal INTEGERs, read as those integers |
| Signature.NegativeLosesItsSign | pkg/tpm/signature.go:72-91 | A concrete signature whose R is negative is accepted and comes back positive |
| Signature.RefusedExactly | pkg/tpm/signature.go:35-94 | Refused are exactly the algorithms other than RSASSA and ECDSA, and ECDSA bytes that do not start with a SEQUENCE of two minimal INTEGERs |
| Pcr.BitmapSelectsList | pkg/tpm/tpm.go:600-603 | The bitmap of a list selects exactly the PCRs of the list |
| Pcr.BitmapIsTight | pkg/tpm/tpm.go:600-603 | The bitmap has at least three octets, exactly three for PCRs below 24, and otherwise no more than the highest PCR needs |
| Pcr.TPM.GetPCRHashAlg | pkg/tpm/tpm.go:626-665 | SHA-256 if a full bank of it is allocated, else SHA-384, else SHA-512, in whatever order they are listed; fails exactly when the command does, or when no full bank is allocated |
| Pcr.TPM.SelectPCRs | pkg/tpm/tpm.go:593-610 | The list's bitmap over that same bank, failing exactly when that fails |
| Pcr.TPM.ReadPCRs | pkg/tpm/tpm.go:668-742 | For any list below 24, duplicates allowed, and any batching: each requested index exactly once with the device's digest, within one read each and one more; it fails only because its last command failed, no full bank is allocated, or the last answer was empty, and then found and missing partition the request |
| Pcr.TPM.Gather | pkg/tpm/tpm.go:684-741 | The loop keeps mask, list and missing set equal, and ends because every answer is non-empty |
| Pcr.TPM.Absorb | pkg/tpm/tpm.go:704-724 | A response adds exactly what it selects, each with the digest of its rank, and clears exactly those bits |
| Pcr.ReadMakesProgress | pkg/tpm/tpm.go:684-737 | While something is missing, an answer that is not empty makes it less |
| Pcr.DigestInPlace | pkg/tpm/tpm.go:713-723 | The digest of a selected PCR stands at its rank among the set bits |
| Pcr.GatheredMore | pkg/tpm/tpm.go:704-736 | One response moves what it selects from missing to found |
| Pcr.SelectedAre | pkg/tpm/tpm.go:709-724 | The entries of a response are exactly the selected PCRs, each once |
| Pcr.NothingSelectedIsNoProgress | pkg/tpm/tpm.go:699-737 | A response that selects nothing leaves the loop where it was |
| Policy.PCRPolicy | pkg/tpm/tpm.go:568-587 | The session's digest becomes the TPM's extension of it by the selected PCRs, unless the first command fails, and is returned unless one of the two fails |
| Policy.ComputePolicyDigestFromPCRs | pkg/tpm/policy_digest.go:86-153 | The map and the running hash compute the expected digest, each refusal included |
| Policy.PcrBankAlgOf | pkg/tpm/policy_digest.go:46-82 | The checking loop computes the agreed bank or the first disagreement |
| Policy.BankIsAgreed | pkg/tpm/policy_digest.go:46-82 | A bank is inferred exactly when every selected PCR is attested in it |
| Policy.VerifyPolicyDigest | pkg/tpm/policy_digest.go:158-177 | Accepts exactly when the recomputed digest is the object's auth policy |
| Policy.RecomputedIsTheDevices | pkg/tpm/policy_digest.go:86-153 | From a complete reading of a strictly ascending list the recomputed digest is the device's own, in any of the three banks |
| Policy.AttestedPolicyIsAccepted | pkg/tpm/policy_digest.go:158-177 | End to end: a policy made by SelectPCRs and PCRPolicy is accepted against ReadPCRs of the same device whenever a full bank is allocated, no command of the attempt fails and no answer is empty; it is never refused |
| Policy.RecomputedExactlyWhenInOrder | pkg/tpm/policy_digest.go:122-130 | For any list the recomputation agrees with the TPM exactly when the values in list order are the values in index order |
| Policy.AcceptedExactlyWhenAscending | pkg/tpm/policy_digest.go:122-130 | When the selected PCRs hold different values, it agrees exactly for strictly ascending lists |
| Policy.DigestBindsState | pkg/tpm/policy_digest.go:86-153 | Two states giving one digest are of the same bank and agree on every selected PCR, for a hash without collisions on the inputs compared |
| Policy.ConcatOfEqualWidths | pkg/tpm/policy_digest.go:122-130 | Equal concatenations of values of one width are equal lists |
| Policy.LastEntryCounts | pkg/tpm/policy_digest.go:93-96 | What is taken for an index is the digest at the greatest position that holds it, and nothing exactly when no position does |
| PolicyWire.MarshalledExactly | pkg/tpm/policy_digest.go:102-109 | The marshalled selection in raw octets: one entry, the bank in big endian, the bitmap's size, and PCR p in bit p % 8 of octet p / 8 exactly when the list names it |
| PolicyWire.SevenMarshalled | pkg/tpm/policy_digest.go:102-109 | The selection of PCR 7 octet for octet |
| PolicyWire.SamplePolicy | pkg/tpm/policy_digest.go:86-153 | A policy over PCRs 0 and 7 octet for octet: zeros, command code 0x17F, selection and hash of the two values, whatever else was attested before |
| PolicyWire.DigestBindsSelection | pkg/tpm/policy_digest.go:86-153 | Two lists whose digests are equal name the same PCRs of the same bank, with equal values in the order of the lists, for a hash of fixed length without collisions on the inputs compared |
| PolicyWire.BankExactly | pkg/tpm/policy_digest.go:46-82 | The bank by the widths 32, 48 and 64 alone; otherwise the first position not attested, of unknown width or of another width than the first is named with that cause |
| Bits.BitOfValue | pkg/tpm/tpm.go:709-717 | Bit i of an octet is set exactly when its value divided by 2 to the i is odd |
| Bits.AllOnesIs255 | pkg/tpm/tpm.go:641-648 | The octet of a full bank is 255, and no other |
| Sysfs.BondAddressIsNeverUsed | pkg/iommu/iommu.go:293-340 | Unless the interface is known not to be enslaved, "address" has no influence on the result |
| Sysfs.NICIsAPort | pkg/iommu/iommu.go:197-237 | A NIC is named after a port of its function with that port's own address, and marked forced exactly when the function is not exposed |
| Sysfs.ForcingWidensVerdict | pkg/iommu/iommu.go:203-236 | Forcing changes neither whether an exposed function is collected nor takes away its last reason |
| Sysfs.AddressFoundEitherWay | pkg/iommu/iommu.go:208-236 | Moving the forced port to the front does not change whether an address is found |
| Sysfs.ForcedPortIsCollected | pkg/iommu/iommu.go:208-236 | A forced port with a usable address is collected under its own name |
| Sysfs.OtherVerdictsAreUnchanged | pkg/iommu/iommu.go:197-237 | A function without the forced interface has the same verdict in both runs |
| Iommu.GroupNetdevs | pkg/iommu/iommu.go:133-161 | The map and the list of shared objects group the netdevs by function, in order of first appearance |
| Iommu.Place | pkg/iommu/iommu.go:150-160 | A netdev joins the object of its function, made when it is the first |
| Iommu.FunctionsPartitionNetdevs | pkg/iommu/iommu.go:136-161 | Ports and representors partition the netdevs of a function |
| Iommu.Enumerator.NoteUndetermined | pkg/iommu/iommu.go:186-193 | One entry a key; a repeated key changes nothing |
| Iommu.Enumerator.ReportFunction | pkg/iommu/iommu.go:197-237 | Reporting a function adds its verdict: at most one NIC, and its reasons |
| Iommu.Enumerator.CollectFunction | pkg/iommu/iommu.go:208-236 | The candidate loop takes the first usable address or reports the first failure |
| Iommu.FirstMACAt | pkg/iommu/iommu.go:218-235 | The address taken is that of the first candidate with a usable one |
| Iommu.FirstMACNone | pkg/iommu/iommu.go:218-236 | When no candidate has one, the reason given is the first candidate's |
| Iommu.FindPassthroughNICs | pkg/iommu/iommu.go:121-166 | An enumeration is the verdicts of the functions in order after the unreadable links, or an error when interfaces cannot be listed |
| IommuTheorems.NothingExposedIsDropped | pkg/iommu/iommu.go:121-237 | The function behind every netdev in passthrough, or unclassifiable, is among the NICs or has an undetermined entry of its own, unless an unreadable netdev is named like its address |
| IommuTheorems.NothingExposedIsEverDropped | pkg/iommu/iommu.go:121-237 | The same for every host, where interface names hold no ':' and PCI addresses do |
| IommuTheorems.UnreadableLinkIsReported | pkg/iommu/iommu.go:142-149 | Every netdev with an unreadable device link is undetermined under its own name, with that reason |
| IommuTheorems.ReasonIsKeptUnlessShadowed | pkg/iommu/iommu.go:186-193 | A function with a reason has an entry of its own exactly when no unreadable netdev is named like its address |
| IommuTheorems.EachIsReportedOnce | pkg/iommu/iommu.go:184-237 | No two undetermined entries share a key and no two NICs a function |
| IommuTheorems.EveryNICIsHonest | pkg/iommu/iommu.go:197-237 | A NIC names a listed port, never a representor, with its own address and group; forced exactly when not exposed, and then only because the forced interface is on it |
| IommuTheorems.ForcingOnlyWidens | pkg/iommu/iommu.go:43-50 | A forced run reports as exposed exactly the functions of the unforced one, in order, and keeps every undetermined key |
| IommuTheorems.ForcedPortIsReported | pkg/iommu/iommu.go:208-236 | A forced port with a usable address appears under its own name |
| IommuTheorems.ReportAllIs | pkg/iommu/iommu.go:162-164 | The NICs of a run are those of the verdicts in order, the keys those of the reasons |
| IommuRaw.ClassifiedByDomain | pkg/iommu/iommu.go:74-79 | Exposed is exactly domain "identity"; protected exactly "dma", "dma-fq" or "blocked"; any other name, and an unreadable group or domain, is a doubt with that cause |
| IommuRaw.IdentityIsReported | pkg/iommu/iommu.go:121-256 | The function behind a netdev whose group is in domain "identity" is among the NICs or has an undetermined entry |
| IommuRaw.IdentityIsCollectedExactly | pkg/iommu/iommu.go:197-237 | It is among the NICs exactly when some port of it gives a station address |
| IommuRaw.DoubtIsReported | pkg/iommu/iommu.go:197-256 | A netdev with any other domain, or an unreadable one, gets its function an undetermined entry with that very reason |
| IommuRaw.ContainedIsSilent | pkg/iommu/iommu.go:197-256 | A function in domain "dma", "dma-fq" or "blocked" that is not forced is neither among the NICs nor undetermined |
| IommuRaw.FirstReasonIsKept | pkg/iommu/iommu.go:186-193 | Of several reasons for one function the first is reported |
| IommuRaw.AddressExactly | pkg/iommu/iommu.go:298-340 | The address is the permanent one; failing that the bond's record, or, only if surely not enslaved, the current one; each only if it is six octets, not all zero and no group address |
| IommuRaw.NoAddressExactly | pkg/iommu/iommu.go:298-340 | Without one the reason tells an unreadable bond, a bond and neither apart |
| Wrap.Wrap | pkg/tpm/wrap.go:58-91 | The loop frames the chunks sealed in order, refuses what is too large or fails to seal, and calls the sealer as often as the count byte says |
| Wrap.Unwrap | pkg/tpm/wrap.go:97-126 | The loop opens as many segments as the count says, up to the first failure; counts 0 and 255 are refused |
| Wrap.UnwrapUndoesWrap | pkg/tpm/wrap.go:54-126 | For every sealer whose results open to what was sealed, and whatever bytes follow, unwrapping gives the payload back exactly when it is not empty |
| Wrap.WrappingIsPrefixFree | pkg/tpm/wrap.go:54-126 | One wrapping continues another only if both are of the same payload |
| Wrap.SealedCount | pkg/tpm/wrap.go:61-67 | The count is the length over 128 rounded up: it neither overflows its byte nor reaches the reserved 255 |
| Wrap.SealsExactly | pkg/tpm/wrap.go:67-88 | All chunks are sealed exactly when each 128-byte piece of the data seals to parts that fit a byte of length |
| Wrap.SegmentReadsBack | pkg/tpm/wrap.go:82-112 | A segment is read back whole, whatever follows |
| WrapExact.UnwrapsExactly | pkg/tpm/wrap.go:97-126 | For any sealer and buffer: corrupt exactly for counts 0 and 255; a payload exactly when as many segments as announced open, and then what they open to in order; a failure to unseal exactly when one does not, with the first such answer |
| WrapExact.OneSegment | pkg/tpm/wrap.go:113-117 | A buffer of one segment whose unsealing is refused gives that refusal |
| WrapExact.WrapsExactly | pkg/tpm/wrap.go:58-89 | Too much past 254 chunks of 128; otherwise the framed seals of the chunks in order, unless one is refused or too large, and then the first such decides the error |
| Blob.Pack | pkg/blob/blob.go:74-97 | The appends and the PCR loop write the packed form |
| Blob.Unpack | pkg/blob/blob.go:101-140 | A wrong type is refused; otherwise a new blob is filled with what the buffer spells out |
| Blob.UnpackUndoesPackExactlyInRange | pkg/blob/blob.go:74-140 | Unpacking what was packed, whatever follows, gives the blob back exactly when its fields fit the packed widths |
| Blob.RepackingGivesThePrefix | pkg/blob/blob.go:74-140 | Packing what was unpacked gives the bytes that were read |
| Blob.PackedIsPrefixFree | pkg/blob/blob.go:74-140 | Equal buffers that start with packed blobs start with the same blob |
| Blob.UnpackedIsInRange | pkg/blob/blob.go:101-140 | What is unpacked always fits the packed widths |
| Blob.PcrsArePackedModulo256 | pkg/blob/blob.go:88-91 | PCR indices lose their higher bits without a complaint |
| Blob.SampleBlob | pkg/blob/blob.go:74-158 | One blob octet for octet: the order of the fields, lengths in little endian |
| NvStorage.ReadFromNVStorage | pkg/tpm/tpm.go:1182-1215 | However short the device's non-empty answers, the result is exactly the contents of the index; it fails exactly when the device's own answer to the last read is a failure |
| NvStorage.NothingWraps | pkg/tpm/tpm.go:1206-1208 | While bytes are missing no 16-bit subtraction or conversion wraps: the read asks for what is missing, at most a block, where it is missing |
| NvStorage.ReadsAreBounded | pkg/tpm/tpm.go:1206-1213 | Each read yields between one byte and one block, so their number is bounded both ways |
| NvStorage.CollectedIsAPrefix | pkg/tpm/tpm.go:1206-1213 | What is collected is always a prefix of the contents |
| NvStorage.ProgressExactlyWhenLowBitsAreSet | pkg/tpm/tpm.go:1206-1208 | Every read asks for a byte exactly when the block size is no multiple of 65536 |

## Left out

- HTTP, JSON, authentication, redirects and contexts of the Redfish client: a read answers with decoded content, a 404, an undecodable body or a transient failure; error texts are not kept.
- `IDevIDChain`, `Manager`, `System` and the POST of `TPMSignedMeasurements`: one or two reads each, with no state of their own beyond the manager path.
- `path.Dir`, the slot pattern with `strconv.Atoi`, `strings.TrimSpace` and `strings.EqualFold`: parameters of a site; of case folding only that it never equates empty with non-empty is assumed.
- Assumptions of the Redfish theorems, `RedfishSite.Consistent`: among the components that are searched an id names one, and slot and target URI lead to one set of ports; `RedfishLimits` says exactly what happens without the latter.
- Searched components without an id: allowed everywhere but in `RedfishTheorems.AfterCleanMiss`, since they are never remembered.
- BMC content that changes over time: a site is fixed for a run.
- `x509.ParseCertificate`, the EK parser tried first and the issuer they report: functions of the bytes they are handed.
- `asn1.Unmarshal` beyond one element at a time, and lengths from 2^31 on, which it refuses.
- The algorithm checks around signing: no state of their own.
- The hash functions, the unmarshalling of a public area and the digest sizes: parameters; collision freedom is assumed only on the inputs compared.
- Octets of PCR bitmaps and the 32-bit mask are sequences of bits; PCR indices from 24 on are outside the contract of `Pcr.TPM.ReadPCRs`.
- A device answering a read with a bitmap that selects nothing, or an NV read with no bytes, would make the program's loops run for ever: the device contracts exclude it.
- Policies with more than one selection or other commands than PolicyPCR: the program makes none.
- Sysfs access, the patterns for addresses, groups and representors and the parsing of MACs: functions of a fixed host; the interface name given to force is taken already trimmed.
- Buffers too short for what they announce: the program would stop with a run-time error in `Wrap.Unwrap` and `Blob.Unpack`; their `requires` ask that what is looked at is there.
- The slices of an unpacked blob share memory with the buffer; here they are values.
- The command that reads an index's size and block size, passwords and names in `NvStorage.ReadFromNVStorage`: parameters.
- Single-command TPM wrappers, key templates, hierarchy and EK creation, error tables, chip ids, logging and the software key code: no loop or invariant of their own.
