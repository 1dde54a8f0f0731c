/**
 * Reading an NV index in chunks. Sizes and offsets are 16 bits wide in the program: every
 * subtraction and conversion is written out with its wrap-around, and shown not to wrap.
 */
module NvStorage {
  import opened Prelude

  /** One read command, and what the device answered, if it did. */
  datatype Read = Read(size: nat, offset: nat, got: Option<seq<Byte>>)

  /** The device answers with some of the bytes asked for, at least one, from the offset on. */
  predicate Answers(contents: seq<Byte>, size: nat, offset: nat, data: seq<Byte>) {
    0 < |data| <= size && offset + size <= |contents| && data == contents[offset..offset + |data|]
  }

  /**
   * An NV index of the device. What the n-th read of it yields, and whether it succeeds,
   * is the device's choice.
   */
  class NvIndex {
    const contents: seq<Byte>
    const answer: (nat, nat, nat) -> Option<seq<Byte>>
    var log: seq<Read>

    ghost predicate Valid() {
      forall n: nat, size: nat, offset: nat ::
        0 < size && offset + size <= |contents| && answer(n, size, offset).Some? ==>
          Answers(contents, size, offset, answer(n, size, offset).value)
    }

    constructor (contents: seq<Byte>, answer: (nat, nat, nat) -> Option<seq<Byte>>)
      ensures this.contents == contents && this.answer == answer && log == []
    {
      this.contents, this.answer, log := contents, answer, [];
    }

    method NVRead(size: nat, offset: nat) returns (r: Option<seq<Byte>>)
      modifies this`log
      ensures r == answer(|old(log)|, size, offset) && log == old(log) + [Read(size, offset, r)]
    {
      r := answer(|log|, size, offset);
      log := log + [Read(size, offset, r)];
    }
  }

  /** The reads are the device's own answers, from its `n`-th read on. */
  ghost predicate Genuine(index: NvIndex, n: nat, trace: seq<Read>) {
    forall i :: 0 <= i < |trace| ==> trace[i].got == index.answer(n + i, trace[i].size, trace[i].offset)
  }

  /** The next read when `have` of `total` bytes are there: everything is truncated to 16 bits. */
  function NextSize(maxBlockSize: nat, total: nat, have: nat): nat {
    var block, missing := maxBlockSize % 65536, (total - have % 65536) % 65536;
    if block <= missing then block else missing
  }

  function NextOffset(have: nat): nat {
    have % 65536
  }

  /** While bytes are missing nothing wraps: the read asks for what is missing, at most a block, where it is missing. */
  lemma NothingWraps(maxBlockSize: nat, total: nat, have: nat)
    requires have < total < 65536
    ensures NextOffset(have) == have
    ensures NextSize(maxBlockSize, total, have) <= total - have
    ensures NextSize(maxBlockSize, total, have) in {total - have, maxBlockSize % 65536}
    ensures NextSize(maxBlockSize, total, have) > 0 <==> maxBlockSize % 65536 != 0
  {
  }

  /** What the answers amount to. */
  function Collected(trace: seq<Read>): seq<Byte> {
    if trace == [] then []
    else Collected(Init(trace)) + (if Last(trace).got.Some? then Last(trace).got.value else [])
  }

  /** Every read asked for the right bytes, and all but perhaps the last were answered. */
  ghost predicate Follows(trace: seq<Read>, maxBlockSize: nat, contents: seq<Byte>) {
    trace == [] ||
    (var before, read, have := Init(trace), Last(trace), |Collected(Init(trace))|;
     && Follows(before, maxBlockSize, contents)
     && (before == [] || Last(before).got.Some?)
     && have < |contents|
     && read.size == NextSize(maxBlockSize, |contents|, have) && read.offset == NextOffset(have)
     && (read.got.Some? ==> Answers(contents, read.size, read.offset, read.got.value)))
  }

  ghost predicate Failed(trace: seq<Read>) {
    trace != [] && Last(trace).got.None?
  }

  lemma {:induction false} CollectedIsAPrefix(trace: seq<Read>, maxBlockSize: nat, contents: seq<Byte>)
    requires Follows(trace, maxBlockSize, contents) && |contents| < 65536
    ensures |Collected(trace)| <= |contents| && Collected(trace) == contents[..|Collected(trace)|]
  {
    if trace != [] {
      CollectedIsAPrefix(Init(trace), maxBlockSize, contents);
      NothingWraps(maxBlockSize, |contents|, |Collected(Init(trace))|);
    }
  }

  /** Reads are never needless: between one a block and one a byte. */
  lemma {:induction false} ReadsAreBounded(trace: seq<Read>, maxBlockSize: nat, contents: seq<Byte>)
    requires Follows(trace, maxBlockSize, contents) && |contents| < 65536 && !Failed(trace)
    ensures |trace| <= |Collected(trace)| <= |trace| * (maxBlockSize % 65536)
  {
    if trace != [] {
      var before, block := Init(trace), maxBlockSize % 65536;
      ReadsAreBounded(before, maxBlockSize, contents);
      NothingWraps(maxBlockSize, |contents|, |Collected(before)|);
      OneMore(|before|, block);
      assert |Collected(trace)| <= |Collected(before)| + block;
    }
  }

  lemma OneMore(n: nat, block: nat)
    ensures (n + 1) * block == n * block + block
  {
  }

  lemma NoReads(index: NvIndex, maxBlockSize: nat)
    ensures forall n: nat :: Genuine(index, n, [])
    ensures Follows([], maxBlockSize, index.contents)
  {
  }

  lemma GenuineWithLast(index: NvIndex, n: nat, trace: seq<Read>, read: Read)
    requires Genuine(index, n, trace) && read.got == index.answer(n + |trace|, read.size, read.offset)
    ensures Genuine(index, n, trace + [read])
  {
  }

  lemma FollowsWithLast(trace: seq<Read>, maxBlockSize: nat, contents: seq<Byte>, read: Read)
    requires Follows(trace, maxBlockSize, contents) && !Failed(trace) && |Collected(trace)| < |contents|
    requires read.size == NextSize(maxBlockSize, |contents|, |Collected(trace)|)
    requires read.offset == NextOffset(|Collected(trace)|)
    requires read.got.Some? ==> Answers(contents, read.size, read.offset, read.got.value)
    ensures Follows(trace + [read], maxBlockSize, contents)
    ensures Failed(trace + [read]) <==> read.got.None?
    ensures read.got.Some? ==> Collected(trace + [read]) == Collected(trace) + read.got.value
  {
    assert Init(trace + [read]) == trace;
  }

  /**
   * Whatever the device gives at a time, a read of the index returns its contents, all of
   * them and in order; it fails only when a read command failed, and then at once.
   */
  method ReadFromNVStorage(index: NvIndex, maxBlockSize: nat) returns (r: Option<seq<Byte>>, ghost trace: seq<Read>)
    requires index.Valid() && |index.contents| < 65536 && maxBlockSize % 65536 != 0
    modifies index`log
    ensures index.log == old(index.log) + trace && Genuine(index, |old(index.log)|, trace)
    ensures Follows(trace, maxBlockSize, index.contents)
    ensures r.Some? ==> r.value == index.contents
    ensures r.None? <==> Failed(trace)
  {
    hide Genuine, Follows, NextSize;
    var dataSize := |index.contents|;
    var buffer: seq<Byte> := [];
    trace := [];
    NoReads(index, maxBlockSize);
    while |buffer| < dataSize
      invariant index.log == old(index.log) + trace && Genuine(index, |old(index.log)|, trace)
      invariant Follows(trace, maxBlockSize, index.contents) && !Failed(trace)
      invariant buffer == Collected(trace)
      invariant |buffer| <= dataSize && buffer == index.contents[..|buffer|]
      decreases dataSize - |buffer|
    {
      NothingWraps(maxBlockSize, dataSize, |buffer|);
      var readSize := NextSize(maxBlockSize, dataSize, |buffer|);
      var data := index.NVRead(readSize, NextOffset(|buffer|));
      ghost var read := Read(readSize, NextOffset(|buffer|), data);
      GenuineWithLast(index, |old(index.log)|, trace, read);
      FollowsWithLast(trace, maxBlockSize, index.contents, read);
      ConcatAssociative(old(index.log), trace, [read]);
      trace := trace + [read];
      if data.None? {
        return None, trace;
      }
      buffer := buffer + data.value;
    }
    assert buffer == index.contents;
    r := Some(buffer);
  }

  /**
   * The block size is truncated to 16 bits before it is used. One that is a multiple of
   * 65536 asks for nothing, for ever; every other asks for at least one byte until the end.
   */
  lemma ProgressExactlyWhenLowBitsAreSet(maxBlockSize: nat)
    ensures maxBlockSize % 65536 != 0 <==>
              forall total: nat, have: nat :: have < total < 65536 ==> NextSize(maxBlockSize, total, have) > 0
  {
    forall total: nat, have: nat | have < total < 65536
      ensures NextSize(maxBlockSize, total, have) > 0 <==> maxBlockSize % 65536 != 0
    {
      NothingWraps(maxBlockSize, total, have);
    }
    assert NextSize(maxBlockSize, 1, 0) > 0 <==> maxBlockSize % 65536 != 0;
  }
}
