/**
 * Sealing data of any size through a sealer that takes 128 bytes at a time: the framing of
 * the sealed chunks, and its inverse. The sealer's answers are arbitrary and may differ from
 * one call to the next, as those of a TPM do.
 */
module Wrap {
  import opened Prelude

  const MAX_SEAL_LENGTH := 128
  const MAX_SEAL_COUNT := 254

  /** The policy digest to seal under, if any. */
  type Policy = Option<seq<Byte>>

  datatype Sealed = Sealed(priv: seq<Byte>, pub: seq<Byte>)

  datatype Error = CorruptedData | TooMuchData | SealFailed(why: string) | UnsealFailed(why: string)

  /** What the n-th call ever made to a sealer answers. */
  type Seals = (nat, seq<Byte>, Policy) -> Result<Sealed, string>

  /** What a sealed object opens to in a session. */
  type Unseals<!S> = (Sealed, S) -> Result<seq<Byte>, string>

  class Sealer<!S> {
    const seals: Seals
    const unseals: Unseals<S>
    var calls: nat

    constructor (seals: Seals, unseals: Unseals<S>)
      ensures this.seals == seals && this.unseals == unseals && calls == 0
    {
      this.seals, this.unseals, calls := seals, unseals, 0;
    }

    method Seal(data: seq<Byte>, policy: Policy) returns (r: Result<Sealed, string>)
      modifies this
      ensures r == seals(old(calls), data, policy) && calls == old(calls) + 1
    {
      r := seals(calls, data, policy);
      calls := calls + 1;
    }
  }

  // ---- wrapping

  predicate Fits(s: Sealed) {
    |s.priv| <= 255 && |s.pub| <= 255
  }

  /** One sealed chunk: each part behind one byte of length. */
  function Segment(s: Sealed): seq<Byte> {
    [|s.priv| % 256] + s.priv + [|s.pub| % 256] + s.pub
  }

  function Frame(ss: seq<Sealed>): seq<Byte> {
    if ss == [] then [] else Frame(Init(ss)) + Segment(Last(ss))
  }

  function ChunkLength(rest: nat): nat {
    if rest < MAX_SEAL_LENGTH then rest else MAX_SEAL_LENGTH
  }

  /** The chunks of the data sealed in order from call `at` on, up to the first failure. */
  function SealAll(seals: Seals, at: nat, data: seq<Byte>, policy: Policy): Result<seq<Sealed>, Error>
    decreases |data|
  {
    if data == [] then Ok([])
    else
      var count := ChunkLength(|data|);
      match seals(at, data[..count], policy)
      case Err(why) => Err(SealFailed(why))
      case Ok(s) => if Fits(s) then Prepend([s], SealAll(seals, at + 1, data[count..], policy)) else Err(TooMuchData)
  }

  function Prepend(ss: seq<Sealed>, r: Result<seq<Sealed>, Error>): Result<seq<Sealed>, Error> {
    match r
    case Ok(more) => Ok(ss + more)
    case Err(e) => Err(e)
  }

  lemma PrependTwice(ss: seq<Sealed>, s: Sealed, r: Result<seq<Sealed>, Error>)
    ensures Prepend(ss, Prepend([s], r)) == Prepend(ss + [s], r)
  {
    if r.Ok? { ConcatAssociative(ss, [s], r.value); }
  }

  lemma PrependNothing(r: Result<seq<Sealed>, Error>)
    ensures Prepend([], r) == r
  {
    if r.Ok? { assert [] + r.value == r.value; }
  }

  function CountByte(length: nat): Byte {
    (length + MAX_SEAL_LENGTH - 1) / MAX_SEAL_LENGTH % 256
  }

  function Wrapped(seals: Seals, at: nat, data: seq<Byte>, policy: Policy): Result<seq<Byte>, Error> {
    if |data| > MAX_SEAL_LENGTH * MAX_SEAL_COUNT then Err(TooMuchData)
    else
      match SealAll(seals, at, data, policy)
      case Ok(ss) => Ok([CountByte(|data|)] + Frame(ss))
      case Err(e) => Err(e)
  }

  /** One chunk of the loop: the rest of the data from `ofs` on is sealed by sealing its first chunk. */
  lemma SealNext(seals: Seals, at: nat, data: seq<Byte>, policy: Policy, ofs: nat)
    requires ofs <= |data|
    ensures ofs == |data| ==> SealAll(seals, at, data[ofs..], policy) == Ok([])
    ensures ofs < |data| ==>
              var next := ofs + ChunkLength(|data| - ofs);
              && ofs < next <= |data|
              && SealAll(seals, at, data[ofs..], policy) ==
                   match seals(at, data[ofs..next], policy)
                   case Err(why) => Err(SealFailed(why))
                   case Ok(s) =>
                     if Fits(s) then Prepend([s], SealAll(seals, at + 1, data[next..], policy)) else Err(TooMuchData)
  {
    if ofs < |data| {
      var rest, count := data[ofs..], ChunkLength(|data| - ofs);
      assert rest[..count] == data[ofs..ofs + count] && rest[count..] == data[ofs + count..];
    }
  }

  method Wrap<S>(s: Sealer<S>, data: seq<Byte>, policy: Policy) returns (r: Result<seq<Byte>, Error>)
    modifies s
    ensures r == Wrapped(s.seals, old(s.calls), data, policy)
    ensures r.Ok? ==> s.calls == old(s.calls) + r.value[0]
    ensures |data| > MAX_SEAL_LENGTH * MAX_SEAL_COUNT ==> s.calls == old(s.calls)
  {
    assert Frame([]) == [];
    hide SealAll, Frame, ChunkLength, CountByte;
    if |data| > MAX_SEAL_LENGTH * MAX_SEAL_COUNT {
      return Err(TooMuchData);
    }
    var wrapped: seq<Byte> := [CountByte(|data|)];
    ghost var head := wrapped;
    var ofs := 0;
    ghost var ss: seq<Sealed> := [];
    assert data[ofs..] == data && head + [] == head;
    PrependNothing(SealAll(s.seals, s.calls, data, policy));
    while ofs < |data|
      invariant 0 <= ofs <= |data|
      invariant s.calls == old(s.calls) + |ss|
      invariant wrapped == head + Frame(ss)
      invariant SealAll(s.seals, old(s.calls), data, policy) == Prepend(ss, SealAll(s.seals, s.calls, data[ofs..], policy))
    {
      var count := ChunkLength(|data| - ofs);
      SealNext(s.seals, s.calls, data, policy, ofs);
      var sealed := s.Seal(data[ofs..ofs + count], policy);
      if sealed.Err? {
        return Err(SealFailed(sealed.error));
      }
      if |sealed.value.priv| > 255 || |sealed.value.pub| > 255 {
        return Err(TooMuchData);
      }
      FrameMore(head, ss, sealed.value);
      PrependTwice(ss, sealed.value, SealAll(s.seals, s.calls, data[ofs + count..], policy));
      wrapped := wrapped + [|sealed.value.priv| % 256];
      wrapped := wrapped + sealed.value.priv;
      wrapped := wrapped + [|sealed.value.pub| % 256];
      wrapped := wrapped + sealed.value.pub;
      ss := ss + [sealed.value];
      ofs := ofs + count;
    }
    SealNext(s.seals, s.calls, data, policy, ofs);
    assert ss + [] == ss;
    SealedCount(s.seals, old(s.calls), data, policy);
    r := Ok(wrapped);
  }

  lemma FrameMore(head: seq<Byte>, ss: seq<Sealed>, s: Sealed)
    ensures head + Frame(ss) + [|s.priv| % 256] + s.priv + [|s.pub| % 256] + s.pub == head + Frame(ss + [s])
  {
    assert Init(ss + [s]) == ss;
    var a: seq<Byte>, b: seq<Byte> := [|s.priv| % 256], [|s.pub| % 256];
    assert head + Frame(ss) + a + s.priv + b + s.pub == head + (Frame(ss) + (a + s.priv + b + s.pub));
  }

  // ---- unwrapping

  /** The buffer starts with a whole segment. */
  predicate SegmentAhead(b: seq<Byte>) {
    && |b| > 0
    && var priv: int := b[0];
    && |b| > 1 + priv
    && var pub: int := b[1 + priv];
    && |b| >= 2 + priv + pub
  }

  function Ahead(b: seq<Byte>): Sealed
    requires SegmentAhead(b)
  {
    var priv: int := b[0];
    var pub: int := b[1 + priv];
    Sealed(b[1..1 + priv], b[2 + priv..2 + priv + pub])
  }

  function Behind(b: seq<Byte>): (rest: seq<Byte>)
    requires SegmentAhead(b)
    ensures |rest| < |b|
  {
    var priv: int := b[0];
    var pub: int := b[1 + priv];
    b[2 + priv + pub..]
  }

  /** As many segments as are looked at before a failure lie within the buffer. */
  predicate InBounds<S>(unseals: Unseals<S>, session: S, b: seq<Byte>, n: nat) {
    n > 0 ==> SegmentAhead(b) && (unseals(Ahead(b), session).Ok? ==> InBounds(unseals, session, Behind(b), n - 1))
  }

  function OpenAll<S>(unseals: Unseals<S>, session: S, b: seq<Byte>, n: nat): Result<seq<Byte>, Error>
    requires InBounds(unseals, session, b, n)
  {
    if n == 0 then Ok([])
    else
      match unseals(Ahead(b), session)
      case Err(why) => Err(UnsealFailed(why))
      case Ok(data) => PrependData(data, OpenAll(unseals, session, Behind(b), n - 1))
  }

  function PrependData(data: seq<Byte>, r: Result<seq<Byte>, Error>): Result<seq<Byte>, Error> {
    match r
    case Ok(more) => Ok(data + more)
    case Err(e) => Err(e)
  }

  lemma PrependDataTwice(a: seq<Byte>, b: seq<Byte>, r: Result<seq<Byte>, Error>)
    ensures PrependData(a, PrependData(b, r)) == PrependData(a + b, r)
  {
    if r.Ok? { ConcatAssociative(a, b, r.value); }
  }

  lemma PrependNoData(r: Result<seq<Byte>, Error>)
    ensures PrependData([], r) == r
  {
    if r.Ok? { assert [] + r.value == r.value; }
  }

  predicate IsReserved(count: Byte) {
    count == 0 || count > MAX_SEAL_COUNT
  }

  /** What the program may be given: a count, and behind it the segments it will look at. */
  predicate Readable<S>(unseals: Unseals<S>, session: S, sealedData: seq<Byte>) {
    sealedData != [] && (!IsReserved(sealedData[0]) ==> InBounds(unseals, session, sealedData[1..], sealedData[0]))
  }

  function Unwrapped<S>(unseals: Unseals<S>, session: S, sealedData: seq<Byte>): Result<seq<Byte>, Error>
    requires Readable(unseals, session, sealedData)
  {
    if IsReserved(sealedData[0]) then Err(CorruptedData)
    else OpenAll(unseals, session, sealedData[1..], sealedData[0])
  }

  /** One segment of the loop: where its parts lie in the buffer, and that the rest is opened behind it. */
  lemma OpenNext<S>(unseals: Unseals<S>, session: S, data: seq<Byte>, ofs: nat, n: nat)
    requires ofs <= |data| && InBounds(unseals, session, data[ofs..], n)
    ensures n == 0 ==> OpenAll(unseals, session, data[ofs..], n) == Ok([])
    ensures n > 0 ==>
              && ofs < |data|
              && var p: int := ofs + 1 + data[ofs];
              && p < |data|
              && var q: int := p + 1 + data[p];
              && q <= |data|
              && var s := Sealed(data[ofs + 1..p], data[p + 1..q]);
              && (unseals(s, session).Ok? ==> InBounds(unseals, session, data[q..], n - 1))
              && OpenAll(unseals, session, data[ofs..], n) ==
                   match unseals(s, session)
                   case Err(why) => Err(UnsealFailed(why))
                   case Ok(part) => PrependData(part, OpenAll(unseals, session, data[q..], n - 1))
  {
    if n > 0 {
      var b := data[ofs..];
      var p: int := ofs + 1 + b[0];
      var q: int := p + 1 + data[p];
      assert Ahead(b) == Sealed(data[ofs + 1..p], data[p + 1..q]) && Behind(b) == data[q..];
    }
  }

  method Unwrap<S>(s: Sealer<S>, sealedData: seq<Byte>, session: S) returns (r: Result<seq<Byte>, Error>)
    requires Readable(s.unseals, session, sealedData)
    ensures r == Unwrapped(s.unseals, session, sealedData)
  {
    hide InBounds, OpenAll;
    var segments: int := sealedData[0];
    if segments == 0 || segments > MAX_SEAL_COUNT {
      return Err(CorruptedData);
    }
    var ofs := 1;
    var data: seq<Byte> := [];
    PrependNoData(Unwrapped(s.unseals, session, sealedData));
    while segments > 0
      invariant 0 <= segments && ofs <= |sealedData|
      invariant InBounds(s.unseals, session, sealedData[ofs..], segments)
      invariant Unwrapped(s.unseals, session, sealedData)
                == PrependData(data, OpenAll(s.unseals, session, sealedData[ofs..], segments))
    {
      OpenNext(s.unseals, session, sealedData, ofs, segments);
      var privateLen: int := sealedData[ofs];
      ofs := ofs + 1;
      var priv := sealedData[ofs..ofs + privateLen];
      ofs := ofs + privateLen;
      var publicLen: int := sealedData[ofs];
      ofs := ofs + 1;
      var pub := sealedData[ofs..ofs + publicLen];
      ofs := ofs + publicLen;

      var segment := s.unseals(Sealed(priv, pub), session);
      if segment.Err? {
        return Err(UnsealFailed(segment.error));
      }
      PrependDataTwice(data, segment.value, OpenAll(s.unseals, session, sealedData[ofs..], segments - 1));
      data := data + segment.value;
      segments := segments - 1;
    }
    OpenNext(s.unseals, session, sealedData, ofs, segments);
    assert data + [] == data;
    r := Ok(data);
  }

  // ---- what wrapping does

  function Ceiling(length: nat): nat {
    (length + MAX_SEAL_LENGTH - 1) / MAX_SEAL_LENGTH
  }

  /** The k-th chunk of the data. */
  function Chunk(data: seq<Byte>, k: nat): seq<Byte>
    requires k < Ceiling(|data|)
  {
    if MAX_SEAL_LENGTH * (k + 1) <= |data| then data[MAX_SEAL_LENGTH * k..MAX_SEAL_LENGTH * (k + 1)]
    else data[MAX_SEAL_LENGTH * k..]
  }

  lemma ChunkBehind(data: seq<Byte>, k: nat)
    requires |data| > 0 && k < Ceiling(|data|)
    ensures k == 0 ==> Chunk(data, k) == data[..ChunkLength(|data|)]
    ensures k > 0 ==> k - 1 < Ceiling(|data[ChunkLength(|data|)..]|)
                      && Chunk(data, k) == Chunk(data[ChunkLength(|data|)..], k - 1)
  {
  }

  /** One segment for each 128 bytes begun: the count does not overflow its byte, nor reach the reserved 255. */
  lemma {:induction false} SealedCount(seals: Seals, at: nat, data: seq<Byte>, policy: Policy)
    requires SealAll(seals, at, data, policy).Ok?
    ensures |SealAll(seals, at, data, policy).value| == Ceiling(|data|)
    ensures |data| <= MAX_SEAL_LENGTH * MAX_SEAL_COUNT ==> CountByte(|data|) == Ceiling(|data|) <= MAX_SEAL_COUNT
    decreases |data|
  {
    if data != [] {
      SealedCount(seals, at + 1, data[ChunkLength(|data|)..], policy);
    }
  }

  /** Wrapping succeeds exactly when the data is small enough and every chunk of it seals to parts that fit. */
  lemma {:induction false} SealsExactly(seals: Seals, at: nat, data: seq<Byte>, policy: Policy)
    ensures SealAll(seals, at, data, policy).Ok? <==>
              forall k :: 0 <= k < Ceiling(|data|) ==>
                seals(at + k, Chunk(data, k), policy).Ok? && Fits(seals(at + k, Chunk(data, k), policy).value)
    decreases |data|
  {
    if data != [] {
      var rest := data[ChunkLength(|data|)..];
      SealsExactly(seals, at + 1, rest, policy);
      ChunkBehind(data, 0);
      forall k | 0 <= k < Ceiling(|rest|)
        ensures k + 1 < Ceiling(|data|) && Chunk(data, k + 1) == Chunk(rest, k)
      {
        ChunkBehind(data, k + 1);
      }
      if SealAll(seals, at, data, policy).Ok? {
        forall k | 0 <= k < Ceiling(|data|)
          ensures seals(at + k, Chunk(data, k), policy).Ok? && Fits(seals(at + k, Chunk(data, k), policy).value)
        {
          ChunkBehind(data, k);
        }
      }
    }
  }

  // ---- unwrapping undoes wrapping

  /** What is sealed under the policy opens in the session, whichever call sealed it. */
  ghost predicate Inverts<S(!new)>(unseals: Unseals<S>, session: S, seals: Seals, policy: Policy) {
    forall n, data :: seals(n, data, policy).Ok? ==> unseals(seals(n, data, policy).value, session) == Ok(data)
  }

  lemma {:induction false} FrameFront(s: Sealed, ss: seq<Sealed>)
    ensures Frame([s] + ss) == Segment(s) + Frame(ss)
  {
    var all := [s] + ss;
    if ss == [] {
      FrameOne(s);
      assert all == [s];
    } else {
      FrameFront(s, Init(ss));
      assert Init(all) == [s] + Init(ss) && Last(all) == Last(ss);
      ConcatAssociative(Segment(s), Frame(Init(ss)), Segment(Last(ss)));
    }
  }

  lemma FrameOne(s: Sealed)
    ensures Frame([s]) == Segment(s) == Segment(s) + []
  {
  }

  /** A segment that fits is read back whole, wherever it ends. */
  lemma SegmentReadsBack(s: Sealed, rest: seq<Byte>)
    requires Fits(s)
    ensures SegmentAhead(Segment(s) + rest)
    ensures Ahead(Segment(s) + rest) == s && Behind(Segment(s) + rest) == rest
  {
  }

  lemma SegmentOpens<S(!new)>(unseals: Unseals<S>, session: S, s: Sealed, data: seq<Byte>, rest: seq<Byte>, n: nat)
    requires Fits(s) && unseals(s, session) == Ok(data) && InBounds(unseals, session, rest, n)
    ensures InBounds(unseals, session, Segment(s) + rest, n + 1)
    ensures OpenAll(unseals, session, Segment(s) + rest, n + 1) == PrependData(data, OpenAll(unseals, session, rest, n))
  {
    SegmentReadsBack(s, rest);
  }

  lemma {:induction false} SegmentsOpen<S(!new)>(seals: Seals, unseals: Unseals<S>, session: S, at: nat, data: seq<Byte>,
                                                 policy: Policy, suffix: seq<Byte>)
    requires Inverts(unseals, session, seals, policy) && SealAll(seals, at, data, policy).Ok?
    ensures var ss := SealAll(seals, at, data, policy).value;
            && InBounds(unseals, session, Frame(ss) + suffix, |ss|)
            && OpenAll(unseals, session, Frame(ss) + suffix, |ss|) == Ok(data)
    decreases |data|
  {
    if data != [] {
      var chunk, rest := data[..ChunkLength(|data|)], data[ChunkLength(|data|)..];
      assert chunk + rest == data;
      var s, more := seals(at, chunk, policy).value, SealAll(seals, at + 1, rest, policy).value;
      SegmentsOpen(seals, unseals, session, at + 1, rest, policy, suffix);
      SegmentOpens(unseals, session, s, chunk, Frame(more) + suffix, |more|);
      FrameFront(s, more);
      ConcatAssociative(Segment(s), Frame(more), suffix);
    }
  }

  /**
   * For every sealer whose results open to what was sealed, every payload it can wrap and
   * whatever bytes follow: unwrapping gives the payload back exactly when there was any. An
   * empty payload wraps to a count of zero, which unwrapping refuses.
   */
  lemma UnwrapUndoesWrap<S(!new)>(seals: Seals, unseals: Unseals<S>, session: S, at: nat, data: seq<Byte>,
                                  policy: Policy, suffix: seq<Byte>)
    requires Inverts(unseals, session, seals, policy) && Wrapped(seals, at, data, policy).Ok?
    ensures var sealedData := Wrapped(seals, at, data, policy).value + suffix;
            && Readable(unseals, session, sealedData)
            && (Unwrapped(unseals, session, sealedData) == Ok(data) <==> data != [])
            && (data == [] ==> Unwrapped(unseals, session, sealedData) == Err(CorruptedData))
  {
    var ss := SealAll(seals, at, data, policy).value;
    var count: Byte := CountByte(|data|);
    SealedCount(seals, at, data, policy);
    SegmentsOpen(seals, unseals, session, at, data, policy, suffix);
    ConcatAssociative([count], Frame(ss), suffix);
    assert ([count] + (Frame(ss) + suffix))[1..] == Frame(ss) + suffix;
  }

  /** So two payloads never wrap to buffers of which one continues the other. */
  lemma WrappingIsPrefixFree<S(!new)>(seals: Seals, unseals: Unseals<S>, session: S, policy: Policy,
                                      at: nat, data: seq<Byte>, at': nat, data': seq<Byte>)
    requires Inverts(unseals, session, seals, policy)
    requires Wrapped(seals, at, data, policy).Ok? && Wrapped(seals, at', data', policy).Ok?
    requires Wrapped(seals, at, data, policy).value <= Wrapped(seals, at', data', policy).value
    ensures data == data'
  {
    var w, w' := Wrapped(seals, at, data, policy).value, Wrapped(seals, at', data', policy).value;
    UnwrapUndoesWrap(seals, unseals, session, at, data, policy, w'[|w|..]);
    UnwrapUndoesWrap(seals, unseals, session, at', data', policy, []);
    assert w + w'[|w|..] == w' == w' + [];
  }
}
