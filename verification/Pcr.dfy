/**
 * PCR selections as bitmaps, the choice of bank, and the gathering of PCR values over
 * responses that may be partial (section 22.4 of TPM 2.0 Library Part 3).
 */
module Pcr {
  import opened Prelude
  import opened Bits

  /** A TPM_ALG_ID. */
  type Alg = a: int | 0 <= a < 0x1_0000

  const SHA256: Alg := 0x000B
  const SHA384: Alg := 0x000C
  const SHA512: Alg := 0x000D

  const PCR_COUNT := 24

  datatype Selection = Selection(hash: Alg, bitmap: seq<Octet>)

  datatype PCR = PCR(index: nat, digest: Bytes)

  // ---- bitmaps

  /** Bit `p % 8` of octet `p / 8` stands for PCR `p`. */
  predicate Selects(bitmap: seq<Octet>, p: nat) {
    p / 8 < |bitmap| && bitmap[p / 8][p % 8]
  }

  const BLANK: Octet := [false, false, false, false, false, false, false, false]

  function MaxIndex(pcrs: seq<nat>): nat {
    if pcrs == [] then 0
    else if MaxIndex(Init(pcrs)) < Last(pcrs) then Last(pcrs) else MaxIndex(Init(pcrs))
  }

  function MarkAll(bitmap: seq<Octet>, pcrs: seq<nat>): (r: seq<Octet>)
    ensures |r| == |bitmap|
  {
    if pcrs == [] then bitmap
    else
      var before := MarkAll(bitmap, Init(pcrs));
      var p := Last(pcrs);
      if p / 8 < |bitmap| then before[p / 8 := before[p / 8][p % 8 := true]] else before
  }

  /** `PCClientCompatible.PCRs`: at least three octets, and room for the highest index. */
  function BitmapOf(pcrs: seq<nat>): seq<Octet> {
    var size := if MaxIndex(pcrs) / 8 + 1 < 3 then 3 else MaxIndex(pcrs) / 8 + 1;
    MarkAll(seq(size, i => BLANK), pcrs)
  }

  lemma {:induction false} MaxIndexIsUpper(pcrs: seq<nat>, p: nat)
    requires p in pcrs
    ensures p <= MaxIndex(pcrs)
  {
    if p != Last(pcrs) {
      MaxIndexIsUpper(Init(pcrs), p);
    }
  }

  lemma {:induction false} MarkAllSelects(bitmap: seq<Octet>, pcrs: seq<nat>, p: nat)
    requires p / 8 < |bitmap|
    ensures Selects(MarkAll(bitmap, pcrs), p) <==> Selects(bitmap, p) || p in pcrs
  {
    if pcrs != [] {
      MarkAllSelects(bitmap, Init(pcrs), p);
      var before, q := MarkAll(bitmap, Init(pcrs)), Last(pcrs);
      assert p in pcrs <==> p in Init(pcrs) || p == q;
    }
  }

  /** The bitmap selects exactly the PCRs of the list. */
  lemma BitmapSelectsList(pcrs: seq<nat>, p: nat)
    ensures Selects(BitmapOf(pcrs), p) <==> p in pcrs
  {
    if p in pcrs { MaxIndexIsUpper(pcrs, p); }
    if p / 8 < |BitmapOf(pcrs)| {
      MarkAllSelects(seq(|BitmapOf(pcrs)|, i => BLANK), pcrs, p);
    }
  }

  lemma {:induction false} MaxIndexIsListed(pcrs: seq<nat>)
    requires pcrs != []
    ensures MaxIndex(pcrs) in pcrs
  {
    if |pcrs| > 1 {
      MaxIndexIsListed(Init(pcrs));
    } else {
      assert MaxIndex(Init(pcrs)) == 0;
    }
  }

  /** Three octets, which hold every PCR below 24; more only if the list needs them, and then no more than it needs. */
  lemma BitmapIsTight(pcrs: seq<nat>)
    ensures |BitmapOf(pcrs)| >= 3
    ensures |BitmapOf(pcrs)| == 3 <==> forall p :: p in pcrs ==> p < PCR_COUNT
    ensures |BitmapOf(pcrs)| > 3 ==> exists p :: p in pcrs && p / 8 == |BitmapOf(pcrs)| - 1
    ensures forall p :: p in pcrs ==> p < 8 * |BitmapOf(pcrs)|
  {
    forall p | p in pcrs
      ensures p <= MaxIndex(pcrs)
    {
      MaxIndexIsUpper(pcrs, p);
    }
    if pcrs != [] { MaxIndexIsListed(pcrs); }
  }

  // ---- the device

  /** The octets of a selection, in order of PCR index, up to index `n`. */
  function SelectedUpTo(bitmap: seq<Octet>, bank: seq<Bytes>, n: nat): (r: seq<PCR>)
    requires |bank| == PCR_COUNT
    ensures forall k :: 0 <= k < |r| ==> r[k].index < n
  {
    if n == 0 then []
    else
      SelectedUpTo(bitmap, bank, n - 1)
      + (if n <= PCR_COUNT && Selects(bitmap, n - 1) then [PCR(n - 1, bank[n - 1])] else [])
  }

  function Selected(bitmap: seq<Octet>, bank: seq<Bytes>): seq<PCR>
    requires |bank| == PCR_COUNT
  {
    SelectedUpTo(bitmap, bank, 8 * |bitmap|)
  }

  function Digests(pcrs: seq<PCR>): (r: seq<Bytes>)
    ensures |r| == |pcrs|
  {
    seq(|pcrs|, k requires 0 <= k < |pcrs| => pcrs[k].digest)
  }

  datatype ReadResponse = ReadResponse(selections: seq<Selection>, digests: seq<Bytes>)

  predicate EmptyResponse(r: ReadResponse) {
    r.selections == [] || r.selections[0].bitmap == []
  }

  /**
   * What PCR_Read may answer: nothing, or some of the PCRs asked for (at least one when
   * any was asked for) with their values in order of index.
   */
  predicate Answers(asked: Selection, bank: seq<Bytes>, r: ReadResponse)
    requires |bank| == PCR_COUNT
  {
    || r.selections == [] || r.selections[0].bitmap == []
    || (SelectsSomeOf(r.selections[0].bitmap, asked.bitmap)
        && r.digests == Digests(Selected(r.selections[0].bitmap, bank)))
  }

  predicate SelectsSomeOf(bitmap: seq<Octet>, asked: seq<Octet>) {
    && (forall p | 0 <= p < 8 * |bitmap| :: Selects(bitmap, p) ==> p < PCR_COUNT && Selects(asked, p))
    && ((exists p | 0 <= p < PCR_COUNT :: Selects(asked, p)) ==> exists p | 0 <= p < PCR_COUNT :: Selects(bitmap, p))
  }

  /** Digest widths of the three banks that are used; no other bank is. */
  function Width(a: Alg): Option<nat> {
    if a == SHA256 then Some(32) else if a == SHA384 then Some(48) else if a == SHA512 then Some(64) else None
  }

  /** All 24 standard PCRs are allocated, in exactly three octets. */
  predicate FullBank(a: Selection) {
    a.bitmap == [ALL_ONES, ALL_ONES, ALL_ONES]
  }

  ghost predicate IsBank(a: Alg, bank: seq<Bytes>) {
    && |bank| == PCR_COUNT
    && (Width(a).Some? ==> forall k :: 0 <= k < PCR_COUNT ==> |bank[k]| == Width(a).value)
  }

  /**
   * A TPM: its banks and the allocation it reports. Commands are numbered over its life;
   * which of them fail, and how a PCR_Read batches its answer, is the device's choice.
   */
  class Device {
    const bank: map<Alg, seq<Bytes>>
    const allocation: seq<Selection>
    const fails: nat -> bool
    const answers: (nat, Selection) -> ReadResponse
    /** The number of the next command. */
    var count: nat

    ghost predicate Valid() {
      && (forall a :: a in bank ==> IsBank(a, bank[a]))
      && (forall k :: 0 <= k < |allocation| && FullBank(allocation[k]) ==> allocation[k].hash in bank)
      && (forall n: nat, s: Selection :: s.hash in bank ==> Answers(s, bank[s.hash], answers(n, s)))
    }

    constructor (bank: map<Alg, seq<Bytes>>, allocation: seq<Selection>, fails: nat -> bool,
                 answers: (nat, Selection) -> ReadResponse)
      ensures this.bank == bank && this.allocation == allocation && this.fails == fails && this.answers == answers
      ensures count == 0
    {
      this.bank, this.allocation, this.fails, this.answers, count := bank, allocation, fails, answers, 0;
    }

    method Execute() returns (ok: bool)
      modifies this`count
      ensures ok == !fails(old(count)) && count == old(count) + 1
    {
      ok := !fails(count);
      count := count + 1;
    }

    method GetAssignedPCRs() returns (r: Option<seq<Selection>>)
      modifies this`count
      ensures r == (if fails(old(count)) then None else Some(allocation)) && count == old(count) + 1
    {
      var ok := Execute();
      r := if ok then Some(allocation) else None;
    }

    method PCRRead(asked: Selection) returns (r: Option<ReadResponse>)
      modifies this`count
      ensures r == (if fails(old(count)) then None else Some(answers(old(count), asked))) && count == old(count) + 1
    {
      var n := count;
      var ok := Execute();
      r := if ok then Some(answers(n, asked)) else None;
    }
  }

  // ---- the choice of bank

  ghost predicate Offers(algs: seq<Selection>, a: Alg) {
    exists k :: 0 <= k < |algs| && FullBank(algs[k]) && algs[k].hash == a
  }

  /** SHA-256 if a full bank of it is offered, else SHA-384, else SHA-512. */
  ghost predicate IsPreferred(algs: seq<Selection>, a: Alg) {
    if Offers(algs, SHA256) then a == SHA256
    else if Offers(algs, SHA384) then a == SHA384
    else a == SHA512 && Offers(algs, SHA512)
  }

  lemma OffersNext(algs: seq<Selection>, i: nat)
    requires i < |algs|
    ensures forall a :: Offers(algs[..i + 1], a) <==> Offers(algs[..i], a) || (FullBank(algs[i]) && algs[i].hash == a)
    ensures forall a :: Offers(algs[..i], a) ==> Offers(algs, a)
    ensures FullBank(algs[i]) ==> Offers(algs, algs[i].hash)
  {
    var next := algs[..i + 1];
    forall a
      ensures Offers(next, a) <==> Offers(algs[..i], a) || (FullBank(algs[i]) && algs[i].hash == a)
      ensures Offers(algs[..i], a) ==> Offers(algs, a)
    {
      if FullBank(algs[i]) && algs[i].hash == a { assert FullBank(next[i]); }
      if Offers(algs[..i], a) {
        var k :| 0 <= k < i && FullBank(algs[..i][k]) && algs[..i][k].hash == a;
        assert FullBank(next[k]) && FullBank(algs[k]);
      }
      if Offers(next, a) {
        var k :| 0 <= k <= i && FullBank(next[k]) && next[k].hash == a;
        if k < i { assert FullBank(algs[..i][k]); }
      }
    }
  }

  // ---- gathering

  function Requested(pcrs: seq<nat>): set<nat> {
    set p | p in pcrs
  }

  function Indices(values: seq<PCR>): set<nat> {
    set k | 0 <= k < |values| :: values[k].index
  }

  lemma ProperSubsetIsSmaller(a: set<nat>, b: set<nat>)
    requires a < b
    ensures |a| < |b|
  {
    assert |b| == |a| + |b - a| by { assert b == a + (b - a); }
    assert b - a != {};
  }

  ghost predicate MaskIs(mask: Mask, s: set<nat>) {
    forall p: nat :: InMask(mask, p) <==> p in s
  }

  /** No index twice, every digest the bank's own, and `missing` exactly the rest of what was asked for. */
  ghost predicate Gathered(values: seq<PCR>, bank: seq<Bytes>, asked: set<nat>, missing: set<nat>)
    requires |bank| == PCR_COUNT
  {
    && Distinct(values)
    && FromBank(values, bank)
    && Indices(values) !! missing
    && Indices(values) + missing == asked
  }

  lemma MaskNext(mask: Mask, pcrs: seq<nat>, i: nat)
    requires i < |pcrs| && MaskIs(mask, Requested(pcrs[..i])) && pcrs[i] < PCR_COUNT
    ensures MaskIs(WithBit(mask, pcrs[i]), Requested(pcrs[..i + 1]))
  {
    assert pcrs[..i + 1] == pcrs[..i] + [pcrs[i]];
    forall p: nat
      ensures InMask(WithBit(mask, pcrs[i]), p) <==> p in Requested(pcrs[..i + 1])
    {
      assert InMask(WithBit(mask, pcrs[i]), p) <==> InMask(mask, p) || p == pcrs[i];
    }
  }

  lemma {:induction false} SelectedPrefix(bitmap: seq<Octet>, bank: seq<Bytes>, m: nat, n: nat)
    requires |bank| == PCR_COUNT && m <= n
    ensures SelectedUpTo(bitmap, bank, m) <= SelectedUpTo(bitmap, bank, n)
  {
    if m < n {
      SelectedPrefix(bitmap, bank, m, n - 1);
    }
  }

  /** One more bit of a bitmap: a selected PCR joins the values, any other adds nothing. */
  lemma SelectedNext(found: seq<PCR>, bitmap: seq<Octet>, bank: seq<Bytes>, p: nat)
    requires |bank| == PCR_COUNT && (Selects(bitmap, p) ==> p < PCR_COUNT)
    ensures var so, now := SelectedUpTo(bitmap, bank, p), SelectedUpTo(bitmap, bank, p + 1);
            if Selects(bitmap, p) then |now| == |so| + 1 && found + now == found + so + [PCR(p, bank[p])]
            else now == so
  {
  }

  /** The digest of a selected PCR stands where as many are selected below it: at its rank. */
  lemma DigestInPlace(bitmap: seq<Octet>, bank: seq<Bytes>, p: nat)
    requires |bank| == PCR_COUNT && Selects(bitmap, p) && p < PCR_COUNT
    ensures var rank := |SelectedUpTo(bitmap, bank, p)|;
            rank < |Digests(Selected(bitmap, bank))| && Digests(Selected(bitmap, bank))[rank] == bank[p]
  {
    SelectedPrefix(bitmap, bank, p + 1, 8 * |bitmap|);
    assert SelectedUpTo(bitmap, bank, p + 1)[|SelectedUpTo(bitmap, bank, p)|] == PCR(p, bank[p]);
  }

  lemma IndicesAppend(values: seq<PCR>, more: seq<PCR>)
    ensures Indices(values + more) == Indices(values) + Indices(more)
  {
    var now := values + more;
    forall p
      ensures p in Indices(now) <==> p in Indices(values) || p in Indices(more)
    {
      if p in Indices(values) {
        var k :| 0 <= k < |values| && values[k].index == p;
        assert now[k].index == p;
      }
      if p in Indices(more) {
        var k :| 0 <= k < |more| && more[k].index == p;
        assert now[|values| + k].index == p;
      }
    }
  }

  lemma IndicesOfOne(v: PCR)
    ensures Indices([v]) == {v.index}
  {
    assert [v][0].index in Indices([v]);
  }

  lemma NoIndices(values: seq<PCR>)
    ensures values == [] <==> Indices(values) == {}
  {
    if values != [] {
      assert values[0].index in Indices(values);
    }
  }

  ghost predicate Distinct(values: seq<PCR>) {
    forall j, k :: 0 <= j < k < |values| ==> values[j].index != values[k].index
  }

  ghost predicate FromBank(values: seq<PCR>, bank: seq<Bytes>)
    requires |bank| == PCR_COUNT
  {
    forall k :: 0 <= k < |values| ==> values[k].index < PCR_COUNT && values[k].digest == bank[values[k].index]
  }

  lemma DistinctAppend(values: seq<PCR>, more: seq<PCR>)
    requires Distinct(values) && Distinct(more) && Indices(values) !! Indices(more)
    ensures Distinct(values + more)
  {
    assert forall k :: 0 <= k < |values| ==> values[k].index in Indices(values);
    assert forall k :: 0 <= k < |more| ==> more[k].index in Indices(more);
  }

  lemma {:induction false} SelectedIndices(bitmap: seq<Octet>, bank: seq<Bytes>, n: nat, p: nat)
    requires |bank| == PCR_COUNT
    ensures p in Indices(SelectedUpTo(bitmap, bank, n)) <==> p < n && p < PCR_COUNT && Selects(bitmap, p)
  {
    if n > 0 {
      SelectedIndices(bitmap, bank, n - 1, p);
      var before := SelectedUpTo(bitmap, bank, n - 1);
      if n <= PCR_COUNT && Selects(bitmap, n - 1) {
        IndicesOfOne(PCR(n - 1, bank[n - 1]));
        IndicesAppend(before, [PCR(n - 1, bank[n - 1])]);
      } else {
        assert before + [] == before;
      }
    }
  }

  lemma {:induction false} SelectedAreFromBank(bitmap: seq<Octet>, bank: seq<Bytes>, n: nat)
    requires |bank| == PCR_COUNT
    ensures var r := SelectedUpTo(bitmap, bank, n); Distinct(r) && FromBank(r, bank)
  {
    if n > 0 {
      SelectedAreFromBank(bitmap, bank, n - 1);
      if n <= PCR_COUNT && Selects(bitmap, n - 1) {
        SelectedIndices(bitmap, bank, n - 1, n - 1);
        SelectedOneMore(SelectedUpTo(bitmap, bank, n - 1), bank, n - 1);
      }
    }
  }

  /** The entries of a response are exactly the selected PCRs, each once with its value. */
  lemma SelectedAre(bitmap: seq<Octet>, bank: seq<Bytes>)
    requires |bank| == PCR_COUNT
    requires forall p: nat :: Selects(bitmap, p) ==> p < PCR_COUNT
    ensures var r := Selected(bitmap, bank);
            && Distinct(r) && FromBank(r, bank)
            && forall p: nat :: p in Indices(r) <==> Selects(bitmap, p)
  {
    SelectedAreFromBank(bitmap, bank, 8 * |bitmap|);
    forall p: nat
      ensures p in Indices(Selected(bitmap, bank)) <==> Selects(bitmap, p)
    {
      SelectedIndices(bitmap, bank, 8 * |bitmap|, p);
    }
  }

  lemma SelectedOneMore(before: seq<PCR>, bank: seq<Bytes>, p: nat)
    requires |bank| == PCR_COUNT && p < PCR_COUNT && p !in Indices(before)
    requires Distinct(before) && FromBank(before, bank)
    ensures var now := before + [PCR(p, bank[p])];
            Distinct(now) && FromBank(now, bank) && Indices(now) == Indices(before) + {p}
  {
    var one := PCR(p, bank[p]);
    IndicesOfOne(one);
    IndicesAppend(before, [one]);
    DistinctAppend(before, [one]);
  }

  /** One response takes what it selects from what is missing to what was found. */
  lemma GatheredMore(values: seq<PCR>, bank: seq<Bytes>, asked: set<nat>, missing: set<nat>, bitmap: seq<Octet>)
    requires |bank| == PCR_COUNT && Gathered(values, bank, asked, missing)
    requires forall p: nat :: Selects(bitmap, p) ==> p < PCR_COUNT && p in missing
    ensures Gathered(values + Selected(bitmap, bank), bank, asked, Unselected(missing, bitmap))
  {
    SelectedAre(bitmap, bank);
    var more := Selected(bitmap, bank);
    assert forall p: nat :: Selects(bitmap, p) ==> p < 8 * |bitmap|;
    IndicesAppend(values, more);
    DistinctAppend(values, more);
    assert forall p :: p in Indices(more) ==> p in missing;
    assert forall p :: p in missing ==> p in Indices(more) || p in Unselected(missing, bitmap);
    assert FromBank(values + more, bank);
  }

  datatype TpmError = CommandFailed | NoAlgorithm

  datatype ReadError = NotRead(e: TpmError) | Absent(found: seq<PCR>, missing: seq<nat>)

  class TPM {
    const device: Device

    constructor (device: Device)
      ensures this.device == device
    {
      this.device := device;
    }

    /** Fails only if the command does, or, when it does not, exactly if no full bank is allocated. */
    method GetPCRHashAlg() returns (r: Result<Alg, TpmError>)
      modifies device`count
      ensures device.count == old(device.count) + 1
      ensures r == Err(CommandFailed) <==> device.fails(old(device.count))
      ensures r.Ok? ==> IsPreferred(device.allocation, r.value)
      ensures r == Err(NoAlgorithm) <==> !device.fails(old(device.count)) && forall a: Alg :: !IsPreferred(device.allocation, a)
    {
      var algs := device.GetAssignedPCRs();
      if algs.None? {
        return Err(CommandFailed);
      }
      var alg: Alg := 0;
      var i := 0;
      while i < |algs.value|
        invariant 0 <= i <= |algs.value| && device.count == old(device.count) + 1
        invariant !Offers(algs.value[..i], SHA256)
        invariant if Offers(algs.value[..i], SHA384) then alg == SHA384
                  else if Offers(algs.value[..i], SHA512) then alg == SHA512
                  else alg == 0
      {
        var a := algs.value[i];
        OffersNext(algs.value, i);
        if |a.bitmap| != 3 || a.bitmap[0] != ALL_ONES || a.bitmap[1] != ALL_ONES || a.bitmap[2] != ALL_ONES {
        } else if a.hash == SHA256 {
          alg := SHA256;
          assert IsPreferred(device.allocation, alg);
          return Ok(alg);
        } else if a.hash == SHA384 {
          alg := SHA384;
        } else if a.hash == SHA512 && alg != SHA384 {
          alg := SHA512;
        }
        i := i + 1;
      }
      assert algs.value[..i] == device.allocation;
      if alg != 0 { assert IsPreferred(device.allocation, alg); }
      r := if alg == 0 then Err(NoAlgorithm) else Ok(alg);
    }

    /** A selection over the same bank `ReadPCRs` reads. */
    method SelectPCRs(pcrs: seq<nat>) returns (r: Result<Selection, TpmError>)
      modifies device`count
      ensures device.count == old(device.count) + 1
      ensures r == Err(CommandFailed) <==> device.fails(old(device.count))
      ensures r == Err(NoAlgorithm) <==> !device.fails(old(device.count)) && forall a: Alg :: !IsPreferred(device.allocation, a)
      ensures r.Ok? ==> IsPreferred(device.allocation, r.value.hash) && r.value.bitmap == BitmapOf(pcrs)
    {
      var alg := this.GetPCRHashAlg();
      r := match alg
           case Err(e) => Err(e)
           case Ok(a) => Ok(Selection(a, BitmapOf(pcrs)));
    }

    /**
     * Reads the PCRs of a list, duplicates allowed, over as many responses as the device
     * needs. On success each requested index is there exactly once with the device's own
     * digest, at the cost of at most one read each and one more. It fails only for a
     * cause: the last command failed, no full bank is allocated, or the last answer was
     * empty; then what was found and what is named missing partition the request.
     */
    method ReadPCRs(pcrs: seq<nat>) returns (r: Result<seq<PCR>, ReadError>)
      requires device.Valid() && forall p :: p in pcrs ==> p < PCR_COUNT
      modifies device`count
      ensures old(device.count) < device.count <= old(device.count) + 2 + |Requested(pcrs)|
      ensures forall k :: old(device.count) <= k < device.count - 1 ==> !device.fails(k)
      ensures r == Err(NotRead(CommandFailed)) <==> device.fails(device.count - 1)
      ensures r == Err(NotRead(NoAlgorithm)) <==>
                !device.fails(old(device.count)) && forall a: Alg :: !IsPreferred(device.allocation, a)
      ensures r.Ok? ==>
                exists a: Alg :: IsPreferred(device.allocation, a) && a in device.bank
                         && Gathered(r.value, device.bank[a], Requested(pcrs), {})
      ensures r.Err? && r.error.Absent? ==>
                exists a: Alg :: IsPreferred(device.allocation, a) && a in device.bank
                         && Gathered(r.error.found, device.bank[a], Requested(pcrs), Requested(r.error.missing))
                         && r.error.missing != []
                         && var answer := device.answers(device.count - 1, Selection(a, BitmapOf(r.error.missing)));
                            |answer.selections| == 0 || |answer.selections[0].bitmap| == 0
    {
      var mask: Mask := NO_BITS;
      var i := 0;
      while i < |pcrs|
        invariant 0 <= i <= |pcrs| && device.count == old(device.count)
        invariant MaskIs(mask, Requested(pcrs[..i]))
      {
        assert pcrs[i] in pcrs;
        MaskNext(mask, pcrs, i);
        mask := WithBit(mask, pcrs[i]);
        i := i + 1;
      }
      assert pcrs[..i] == pcrs;
      var chosen := this.GetPCRHashAlg();
      if chosen.Err? {
        return Err(NotRead(chosen.error));
      }
      r := Gather(chosen.value, pcrs, mask);
    }

    method Gather(alg: Alg, all: seq<nat>, initial: Mask) returns (r: Result<seq<PCR>, ReadError>)
      requires device.Valid() && alg in device.bank
      requires (forall p :: p in all ==> p < PCR_COUNT) && MaskIs(initial, Requested(all))
      modifies device`count
      ensures old(device.count) < device.count <= old(device.count) + 1 + |Requested(all)|
      ensures forall k :: old(device.count) <= k < device.count - 1 ==> !device.fails(k)
      ensures r == Err(NotRead(CommandFailed)) <==> device.fails(device.count - 1)
      ensures r != Err(NotRead(NoAlgorithm))
      ensures r.Ok? ==> Gathered(r.value, device.bank[alg], Requested(all), {})
      ensures r.Err? && r.error.Absent? ==>
                && Gathered(r.error.found, device.bank[alg], Requested(all), Requested(r.error.missing))
                && r.error.missing != []
                && EmptyResponse(device.answers(device.count - 1, Selection(alg, BitmapOf(r.error.missing))))
    {
      hide BitmapOf, Answers, Selected, Selects, Gathered;
      ghost var bank, asked := device.bank[alg], Requested(all);
      var pcrs: seq<nat>, mask, values := all, initial, [];
      ghost var missing := asked;
      NothingGathered(bank, asked);
      while true
        invariant old(device.count) <= device.count && device.count + |missing| <= old(device.count) + |asked|
        invariant forall k :: old(device.count) <= k < device.count ==> !device.fails(k)
        invariant forall p :: p in pcrs ==> p < PCR_COUNT
        invariant missing == Requested(pcrs) && MaskIs(mask, missing)
        invariant Gathered(values, bank, asked, missing)
        decreases missing
      {
        var selection := Selection(alg, BitmapOf(pcrs));
        var resp := device.PCRRead(selection);
        if resp.None? {
          return Err(NotRead(CommandFailed));
        }
        if EmptyResponse(resp.value) {
          break;
        }
        ghost var left := Unselected(missing, resp.value.selections[0].bitmap);
        ReadMakesProgress(pcrs, alg, bank, resp.value);
        AnswerIsAsked(pcrs, alg, bank, resp.value);
        GatheredMore(values, bank, asked, missing, resp.value.selections[0].bitmap);
        values, mask := Absorb(resp.value, bank, values, mask);
        ghost var before := missing;
        missing := left;
        if mask == NO_BITS {
          EmptyMask(mask);
          assert missing == {};
          return Ok(values);
        }
        EmptyMask(mask);
        assert before != {};
        pcrs := Remaining(pcrs, mask);
      }
      EmptyMask(mask);
      if mask != NO_BITS {
        r := Err(Absent(values, pcrs));
      } else {
        assert missing == {};
        r := Ok(values);
      }
    }

    /** Walks the bits of a response: set bit by set bit, the digests come in the same order. */
    method Absorb(resp: ReadResponse, ghost bank: seq<Bytes>, found: seq<PCR>, before: Mask)
        returns (values: seq<PCR>, mask: Mask)
      requires |bank| == PCR_COUNT && !EmptyResponse(resp)
      requires forall p: nat :: Selects(resp.selections[0].bitmap, p) ==> p < PCR_COUNT
      requires resp.digests == Digests(Selected(resp.selections[0].bitmap, bank))
      ensures values == found + Selected(resp.selections[0].bitmap, bank)
      ensures forall p: nat :: InMask(mask, p) <==> InMask(before, p) && !Selects(resp.selections[0].bitmap, p)
    {
      var bitmap := resp.selections[0].bitmap;
      var digestIndex := 0;
      values, mask := found, before;
      assert found + [] == found;
      var j := 0;
      while j < |bitmap|
        invariant 0 <= j <= |bitmap|
        invariant values == found + SelectedUpTo(bitmap, bank, 8 * j)
        invariant digestIndex == |SelectedUpTo(bitmap, bank, 8 * j)|
        invariant forall p: nat :: InMask(mask, p) <==> InMask(before, p) && !(p / 8 < j && Selects(bitmap, p))
      {
        MaskAfterOctet(before, mask, bitmap, j);
        mask := WithoutOctet(mask, bitmap[j], j);
        values, digestIndex := AbsorbOctet(resp, bank, found, j, values, digestIndex);
        j := j + 1;
      }
    }

    method AbsorbOctet(resp: ReadResponse, ghost bank: seq<Bytes>, ghost found: seq<PCR>, j: nat,
                       before: seq<PCR>, start: nat) returns (values: seq<PCR>, digestIndex: nat)
      requires |bank| == PCR_COUNT && !EmptyResponse(resp) && j < |resp.selections[0].bitmap|
      requires forall p: nat :: Selects(resp.selections[0].bitmap, p) ==> p < PCR_COUNT
      requires resp.digests == Digests(Selected(resp.selections[0].bitmap, bank))
      requires before == found + SelectedUpTo(resp.selections[0].bitmap, bank, 8 * j)
      requires start == |SelectedUpTo(resp.selections[0].bitmap, bank, 8 * j)|
      ensures values == found + SelectedUpTo(resp.selections[0].bitmap, bank, 8 * j + 8)
      ensures digestIndex == |SelectedUpTo(resp.selections[0].bitmap, bank, 8 * j + 8)|
    {
      ghost var bitmap := resp.selections[0].bitmap;
      var bits := resp.selections[0].bitmap[j];
      values, digestIndex := before, start;
      var i := 0;
      while i < 8
        invariant 0 <= i <= 8
        invariant values == found + SelectedUpTo(bitmap, bank, 8 * j + i)
        invariant digestIndex == |SelectedUpTo(bitmap, bank, 8 * j + i)|
      {
        var p := 8 * j + i;
        assert p / 8 == j && p % 8 == i;
        SelectedNext(found, bitmap, bank, p);
        if bits[i] {
          assert Selects(bitmap, p);
          DigestInPlace(bitmap, bank, p);
          values := values + [PCR(p, resp.digests[digestIndex])];
          digestIndex := digestIndex + 1;
        }
        i := i + 1;
      }
    }

    method Remaining(pcrs: seq<nat>, mask: Mask) returns (left: seq<nat>)
      ensures forall p :: p in left <==> p in pcrs && InMask(mask, p)
    {
      left := [];
      var i := 0;
      while i < |pcrs|
        invariant 0 <= i <= |pcrs|
        invariant forall p :: p in left <==> p in pcrs[..i] && InMask(mask, p)
      {
        if InMask(mask, pcrs[i]) {
          left := left + [pcrs[i]];
        }
        i := i + 1;
      }
    }
  }

  lemma MaskAfterOctet(before: Mask, mask: Mask, bitmap: seq<Octet>, j: nat)
    requires j < |bitmap|
    requires forall p: nat :: InMask(mask, p) <==> InMask(before, p) && !(p / 8 < j && Selects(bitmap, p))
    ensures forall p: nat :: InMask(WithoutOctet(mask, bitmap[j], j), p) <==>
                             InMask(before, p) && !(p / 8 < j + 1 && Selects(bitmap, p))
  {
  }

  function Unselected(missing: set<nat>, bitmap: seq<Octet>): set<nat> {
    set p | p in missing && !Selects(bitmap, p)
  }

  lemma AnswerIsAsked(pcrs: seq<nat>, alg: Alg, bank: seq<Bytes>, r: ReadResponse)
    requires |bank| == PCR_COUNT && !EmptyResponse(r) && Answers(Selection(alg, BitmapOf(pcrs)), bank, r)
    requires forall p :: p in pcrs ==> p < PCR_COUNT
    ensures forall p: nat :: Selects(r.selections[0].bitmap, p) ==> p < PCR_COUNT && p in Requested(pcrs)
    ensures pcrs != [] ==> exists p: nat :: Selects(r.selections[0].bitmap, p) && p in Requested(pcrs)
    ensures r.digests == Digests(Selected(r.selections[0].bitmap, bank))
  {
    var bitmap := r.selections[0].bitmap;
    forall p: nat | Selects(bitmap, p)
      ensures p < PCR_COUNT && p in Requested(pcrs)
    {
      assert 0 <= p < 8 * |bitmap|;
      BitmapSelectsList(pcrs, p);
    }
    if pcrs != [] {
      BitmapSelectsList(pcrs, pcrs[0]);
      assert pcrs[0] in pcrs;
    }
  }

  /** As long as something is missing, an answer that is not empty makes it less. */
  lemma ReadMakesProgress(pcrs: seq<nat>, alg: Alg, bank: seq<Bytes>, r: ReadResponse)
    requires |bank| == PCR_COUNT && !EmptyResponse(r) && Answers(Selection(alg, BitmapOf(pcrs)), bank, r)
    requires forall p :: p in pcrs ==> p < PCR_COUNT
    ensures var left := Unselected(Requested(pcrs), r.selections[0].bitmap);
            pcrs != [] ==> left < Requested(pcrs) && |left| < |Requested(pcrs)|
  {
    AnswerIsAsked(pcrs, alg, bank, r);
    var left := Unselected(Requested(pcrs), r.selections[0].bitmap);
    if pcrs != [] {
      assert left < Requested(pcrs);
      ProperSubsetIsSmaller(left, Requested(pcrs));
    }
  }

  lemma NothingGathered(bank: seq<Bytes>, asked: set<nat>)
    requires |bank| == PCR_COUNT
    ensures Gathered([], bank, asked, asked)
  {
  }

  /** A response that selects nothing would leave the loop where it was: progress rests on non-empty answers. */
  lemma NothingSelectedIsNoProgress(mask: Mask, missing: set<nat>, bitmap: seq<Octet>, bank: seq<Bytes>)
    requires |bank| == PCR_COUNT && forall p: nat :: !Selects(bitmap, p)
    ensures Selected(bitmap, bank) == [] && Unselected(missing, bitmap) == missing
  {
    SelectedAre(bitmap, bank);
    NoIndices(Selected(bitmap, bank));
  }
}
