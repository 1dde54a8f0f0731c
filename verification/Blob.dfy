/** The packed form of key and wrap blobs: length-prefixed fields, lengths in little endian. */
module Blob {
  import opened Prelude

  /** The value of a blob. The indices of the PCRs are machine words, of which one byte is packed. */
  datatype Contents = Contents(btype: Byte, stype: Byte, pub: Bytes, priv: Bytes, pcrs: seq<nat>, seeds: Bytes)

  datatype Error = MismatchedTypes

  class Blob {
    var btype: Byte
    var stype: Byte
    var pub: Bytes
    var priv: Bytes
    var pcrs: array<nat>
    var seeds: Bytes

    constructor (btype: Byte, stype: Byte)
      ensures this.btype == btype && this.stype == stype && pub == [] && priv == [] && seeds == []
      ensures fresh(pcrs) && pcrs.Length == 0
    {
      this.btype, this.stype := btype, stype;
      pub, priv, seeds := [], [], [];
      pcrs := new nat[0];
    }

    function Value(): Contents
      reads this, pcrs
    {
      Contents(btype, stype, pub, priv, pcrs[..], seeds)
    }
  }

  // ---- packing

  /** A length as 16 bits: higher bits are dropped. */
  function U16(length: nat): Bytes {
    [length % 65536 % 256, length % 65536 / 256]
  }

  function FromU16(b: Bytes): nat
    requires |b| == 2
  {
    b[0] as int + 256 * b[1] as int
  }

  lemma U16ReadsBack(n: nat, b: Bytes)
    ensures FromU16(U16(n)) == n % 65536
    ensures |b| == 2 ==> FromU16(b) < 65536 && U16(FromU16(b)) == b
  {
  }

  /** Each index as one byte: higher bits are dropped. */
  function PcrBytes(pcrs: seq<nat>): (b: Bytes)
    ensures |b| == |pcrs|
  {
    seq(|pcrs|, i requires 0 <= i < |pcrs| => (pcrs[i] % 256) as Byte)
  }

  function Packed(c: Contents): Bytes {
    [c.btype, c.stype] + U16(|c.pub|) + U16(|c.priv|) + c.pub + c.priv
    + [|c.pcrs| % 256] + PcrBytes(c.pcrs) + U16(|c.seeds|) + c.seeds
  }

  method Pack(b: Blob) returns (buffer: Bytes)
    ensures buffer == Packed(b.Value())
  {
    buffer := [b.btype];
    buffer := buffer + [b.stype];
    buffer := buffer + U16(|b.pub|);
    buffer := buffer + U16(|b.priv|);
    buffer := buffer + b.pub;
    buffer := buffer + b.priv;
    var count: Byte := b.pcrs.Length % 256;
    buffer := buffer + [count];
    ghost var head := buffer;
    var i := 0;
    while i < b.pcrs.Length
      invariant 0 <= i <= b.pcrs.Length
      invariant buffer == head + PcrBytes(b.pcrs[..i])
    {
      buffer := buffer + [b.pcrs[i] % 256];
      assert PcrBytes(b.pcrs[..i + 1]) == PcrBytes(b.pcrs[..i]) + [b.pcrs[i] % 256];
      i := i + 1;
    }
    assert b.pcrs[..i] == b.pcrs[..];
    buffer := buffer + U16(|b.seeds|);
    buffer := buffer + b.seeds;
  }

  // ---- unpacking

  function PubLength(data: Bytes): nat
    requires |data| >= 6
  {
    FromU16(data[2..4])
  }

  function PrivLength(data: Bytes): nat
    requires |data| >= 6
  {
    FromU16(data[4..6])
  }

  /** Where the count of the PCRs stands. */
  function PcrsAt(data: Bytes): nat
    requires |data| >= 6
  {
    6 + PubLength(data) + PrivLength(data)
  }

  /** Where the length of the seeds stands. */
  function SeedsAt(data: Bytes): nat
    requires |data| >= 6 && |data| > PcrsAt(data)
  {
    PcrsAt(data) + 1 + data[PcrsAt(data)]
  }

  predicate HasLengths(data: Bytes) {
    |data| >= 6 && |data| > PcrsAt(data) && |data| >= SeedsAt(data) + 2
  }

  function End(data: Bytes): nat
    requires HasLengths(data)
  {
    SeedsAt(data) + 2 + FromU16(data[SeedsAt(data)..SeedsAt(data) + 2])
  }

  /** The buffer holds every field at the length it announces; what follows does not matter. */
  predicate Whole(data: Bytes) {
    HasLengths(data) && |data| >= End(data)
  }

  function PcrValues(b: Bytes): (pcrs: seq<nat>)
    ensures |pcrs| == |b|
  {
    seq(|b|, i requires 0 <= i < |b| => b[i] as nat)
  }

  function Unpacked(data: Bytes): Contents
    requires Whole(data)
  {
    var pubEnd := 6 + PubLength(data);
    Contents(data[0], data[1], data[6..pubEnd], data[pubEnd..PcrsAt(data)],
             PcrValues(data[PcrsAt(data) + 1..SeedsAt(data)]), data[SeedsAt(data) + 2..End(data)])
  }

  method Unpack(data: Bytes, expectedType: Byte) returns (r: Result<Blob, Error>)
    requires data != [] && (data[0] == expectedType ==> Whole(data))
    ensures r.Ok? <==> data[0] == expectedType
    ensures r.Ok? ==> fresh(r.value) && r.value.Value() == Unpacked(data)
    ensures r.Err? ==> r == Err(MismatchedTypes)
  {
    if |data| < 1 || data[0] != expectedType {
      return Err(MismatchedTypes);
    }
    var b := new Blob(data[0], data[1]);
    var offset: int := 2;
    var pubLen := FromU16(data[offset..offset + 2]);
    var privLen := FromU16(data[offset + 2..offset + 4]);
    offset := offset + 4;
    b.pub := data[offset..offset + pubLen];
    offset := offset + pubLen;
    b.priv := data[offset..offset + privLen];
    offset := offset + privLen;

    var pcrLen: int := data[offset];
    offset := offset + 1;
    b.pcrs := new nat[pcrLen];
    var i := 0;
    while i < pcrLen
      invariant 0 <= i <= pcrLen == b.pcrs.Length && fresh(b.pcrs)
      invariant offset == PcrsAt(data) + 1 + i
      invariant b.btype == data[0] && b.stype == data[1]
      invariant b.pub == Unpacked(data).pub && b.priv == Unpacked(data).priv
      invariant forall k :: 0 <= k < i ==> b.pcrs[k] == data[PcrsAt(data) + 1 + k]
    {
      b.pcrs[i] := data[offset];
      offset := offset + 1;
      i := i + 1;
    }
    var seedLen := FromU16(data[offset..offset + 2]);
    offset := offset + 2;
    b.seeds := data[offset..offset + seedLen];
    assert b.pcrs[..] == Unpacked(data).pcrs;
    r := Ok(b);
  }

  // ---- packing and unpacking are inverse

  /** What the widths of the packed form can hold. */
  predicate InRange(c: Contents) {
    && |c.pub| < 65536 && |c.priv| < 65536 && |c.seeds| < 65536 && |c.pcrs| < 256
    && forall i :: 0 <= i < |c.pcrs| ==> c.pcrs[i] < 256
  }

  lemma UnpackedIsInRange(data: Bytes)
    requires Whole(data)
    ensures InRange(Unpacked(data))
  {
  }

  /** The buffer holds these sections in this order from its start. */
  ghost predicate Sections(data: Bytes, types: Bytes, pubLen: Bytes, privLen: Bytes, pub: Bytes, priv: Bytes,
                           count: Bytes, pcrs: Bytes, seedLen: Bytes, seeds: Bytes) {
    var p := 6 + |pub| + |priv|;
    var q := p + 1 + |pcrs|;
    && |data| >= q + 2 + |seeds| && |types| == |pubLen| == |privLen| == |seedLen| == 2 && |count| == 1
    && data[..2] == types && data[2..4] == pubLen && data[4..6] == privLen
    && data[6..6 + |pub|] == pub && data[6 + |pub|..p] == priv && data[p] == count[0]
    && data[p + 1..q] == pcrs && data[q..q + 2] == seedLen && data[q + 2..q + 2 + |seeds|] == seeds
  }

  lemma SectionsAt(types: Bytes, pubLen: Bytes, privLen: Bytes, pub: Bytes, priv: Bytes,
                   count: Bytes, pcrs: Bytes, seedLen: Bytes, seeds: Bytes, suffix: Bytes)
    requires |types| == |pubLen| == |privLen| == |seedLen| == 2 && |count| == 1
    ensures Sections(types + pubLen + privLen + pub + priv + count + pcrs + seedLen + seeds + suffix,
                     types, pubLen, privLen, pub, priv, count, pcrs, seedLen, seeds)
  {
    var front := types + pubLen + privLen + pub + priv;
    FrontSectionsAt(types, pubLen, privLen, pub, priv);
    BackSectionsAt(front, count, pcrs, seedLen, seeds, suffix);
  }

  lemma FrontSectionsAt(types: Bytes, pubLen: Bytes, privLen: Bytes, pub: Bytes, priv: Bytes)
    requires |types| == |pubLen| == |privLen| == 2
    ensures var front := types + pubLen + privLen + pub + priv;
            && front[..2] == types && front[2..4] == pubLen && front[4..6] == privLen
            && front[6..6 + |pub|] == pub && front[6 + |pub|..] == priv
  {
  }

  lemma BackSectionsAt(front: Bytes, count: Bytes, pcrs: Bytes, seedLen: Bytes, seeds: Bytes, suffix: Bytes)
    requires |seedLen| == 2 && |count| == 1
    ensures var data := front + count + pcrs + seedLen + seeds + suffix;
            var p := |front|; var q := p + 1 + |pcrs|;
            && (forall i, j :: 0 <= i <= j <= p ==> data[i..j] == front[i..j]) && data[p] == count[0]
            && data[p + 1..q] == pcrs && data[q..q + 2] == seedLen && data[q + 2..q + 2 + |seeds|] == seeds
  {
  }

  /** The announced lengths put the sections in their places. */
  lemma PlacesRead(data: Bytes, c: Contents)
    requires InRange(c)
    requires var p := 6 + |c.pub| + |c.priv|; var q := p + 1 + |c.pcrs|;
             && |data| >= q + 2 + |c.seeds|
             && data[2..4] == U16(|c.pub|) && data[4..6] == U16(|c.priv|) && data[p] == |c.pcrs|
             && data[q..q + 2] == U16(|c.seeds|)
    ensures var p := 6 + |c.pub| + |c.priv|; var q := p + 1 + |c.pcrs|;
            && PubLength(data) == |c.pub| && PcrsAt(data) == p && SeedsAt(data) == q
            && Whole(data) && End(data) == q + 2 + |c.seeds|
  {
    U16ReadsBack(|c.pub|, []);
    U16ReadsBack(|c.priv|, []);
    U16ReadsBack(|c.seeds|, []);
  }

  lemma PcrBytesReadBack(pcrs: seq<nat>)
    requires forall i :: 0 <= i < |pcrs| ==> pcrs[i] < 256
    ensures PcrValues(PcrBytes(pcrs)) == pcrs
  {
  }

  /** A buffer that starts with the sections of the contents reads as them. */
  lemma SectionsRead(data: Bytes, c: Contents)
    requires InRange(c)
    requires Sections(data, [c.btype, c.stype], U16(|c.pub|), U16(|c.priv|), c.pub, c.priv, [|c.pcrs| % 256],
                      PcrBytes(c.pcrs), U16(|c.seeds|), c.seeds)
    ensures Whole(data) && Unpacked(data) == c
    ensures End(data) == 9 + |c.pub| + |c.priv| + |c.pcrs| + |c.seeds|
  {
    PlacesRead(data, c);
    PcrBytesReadBack(c.pcrs);
    assert data[0] == data[..2][0] && data[1] == data[..2][1];
  }

  lemma PackedReadsBack(c: Contents, suffix: Bytes)
    requires InRange(c)
    ensures var data := Packed(c) + suffix;
            Whole(data) && Unpacked(data) == c && End(data) == |Packed(c)|
  {
    SectionsAt([c.btype, c.stype], U16(|c.pub|), U16(|c.priv|), c.pub, c.priv, [|c.pcrs| % 256], PcrBytes(c.pcrs),
               U16(|c.seeds|), c.seeds, suffix);
    SectionsRead(Packed(c) + suffix, c);
  }

  /**
   * Unpacking what was packed, whatever follows it, gives the blob back exactly when its
   * fields fit the packed widths; packing itself never complains.
   */
  lemma UnpackUndoesPackExactlyInRange(c: Contents, suffix: Bytes)
    ensures Whole(Packed(c) + suffix) && Unpacked(Packed(c) + suffix) == c <==> InRange(c)
  {
    if InRange(c) {
      PackedReadsBack(c, suffix);
    } else if Whole(Packed(c) + suffix) {
      UnpackedIsInRange(Packed(c) + suffix);
    }
  }

  lemma SectionsJoin(data: Bytes, pubEnd: nat, p: nat, q: nat, end: nat)
    requires 6 <= pubEnd <= p < p + 1 <= q < q + 2 <= end <= |data|
    ensures data[..end] == data[..2] + data[2..4] + data[4..6] + data[6..pubEnd] + data[pubEnd..p]
                           + data[p..p + 1] + data[p + 1..q] + data[q..q + 2] + data[q + 2..end]
  {
  }

  lemma PcrValuesPackBack(b: Bytes)
    ensures PcrBytes(PcrValues(b)) == b
  {
  }

  /** Packing what was unpacked gives the bytes that were read: a buffer has one reading, and a blob one packing. */
  lemma RepackingGivesThePrefix(data: Bytes)
    requires Whole(data)
    ensures Packed(Unpacked(data)) == data[..End(data)]
  {
    var c := Unpacked(data);
    var p, q := PcrsAt(data), SeedsAt(data);
    U16ReadsBack(0, data[2..4]);
    U16ReadsBack(0, data[4..6]);
    U16ReadsBack(0, data[q..q + 2]);
    PcrValuesPackBack(data[p + 1..q]);
    SectionsJoin(data, 6 + PubLength(data), p, q, End(data));
    assert data[..2] == [c.btype, c.stype];
    assert data[p..p + 1] == [|c.pcrs| % 256];
  }

  /** Packed blobs can be told apart and taken off the front of any stream that starts with one. */
  lemma PackedIsPrefixFree(c: Contents, suffix: Bytes, c': Contents, suffix': Bytes)
    requires InRange(c) && InRange(c') && Packed(c) + suffix == Packed(c') + suffix'
    ensures c == c' && suffix == suffix'
  {
    PackedReadsBack(c, suffix);
    PackedReadsBack(c', suffix');
    assert (Packed(c) + suffix)[|Packed(c)|..] == suffix;
    assert (Packed(c') + suffix')[|Packed(c')|..] == suffix';
  }

  /** Out of range, what is lost of the PCR indices is their higher bits: the packed forms agree. */
  lemma PcrsArePackedModulo256(c: Contents)
    ensures Packed(c) == Packed(c.(pcrs := seq(|c.pcrs|, i requires 0 <= i < |c.pcrs| => c.pcrs[i] % 256)))
  {
  }

  /** One blob, octet for octet: lengths in little endian, and of the PCR indices the low octet. */
  lemma SampleBlob(seeds: Bytes)
    requires |seeds| == 0x0102
    ensures Packed(Contents(1, 2, [7], [8, 9], [3, 0x204], seeds))
            == [1, 2, 1, 0, 2, 0, 7, 8, 9, 2, 3, 4, 0x02, 0x01] + seeds
  {
    assert PcrBytes([3, 0x204]) == [3, 4];
  }
}
