/**
 * The element parser for every tag number: a string is accepted exactly when it starts with
 * identifier octets, the minimal length octets and as many contents octets (sections 8.1.2,
 * 8.1.3 and 10.1 of X.690).
 */
module DerExact {
  import opened Prelude
  import opened Der

  /** The low seven bits of each octet, as one number. */
  function LowBits(d: Bytes): nat {
    if d == [] then 0 else LowBits(Init(d)) * 128 + Last(d) % 128
  }

  /** A tag number of at most five octets and 31 bits: the last octet alone has its high bit clear, and the first is no filler. */
  ghost predicate IsTagNumber(d: Bytes) {
    && 1 <= |d| <= 5 && d[0] != 128 && Last(d) < 128
    && (forall k :: 0 <= k < |d| - 1 ==> d[k] >= 128)
    && LowBits(d) < 0x8000_0000
  }

  lemma {:induction false} TagNumberFrom(b: Bytes, i: nat) returns (n: nat)
    requires i <= |b| && i <= 5 && (forall k :: 0 <= k < i ==> b[k] >= 128) && (i > 0 ==> b[0] != 128)
    ensures match ParseBase128(b[i..], i, LowBits(b[..i]))
            case Some((t, rest)) => i < n <= |b| && IsTagNumber(b[..n]) && rest == b[n..] && t == LowBits(b[..n])
            case None => forall m :: i < m <= |b| ==> !IsTagNumber(b[..m])
    decreases |b| - i
  {
    n := i + 1;
    if i < |b| {
      assert Init(b[..n]) == b[..i] && Last(b[..n]) == b[i];
      assert b[i..][1..] == b[n..];
      if i < 5 && !(i == 0 && b[0] == 128) && b[i] >= 128 {
        n := TagNumberFrom(b, i + 1);
        assert !IsTagNumber(b[..i + 1]);
      } else if i < 5 && b[i] < 128 {
        forall m | i + 1 < m <= |b|
          ensures !IsTagNumber(b[..m])
        {
          assert b[..m][i] == b[i] < 128;
        }
      } else if i == 0 {
        assert forall m :: i < m <= |b| ==> b[..m][0] == 128;
      }
    }
  }

  lemma TagNumberIsOne(d: Bytes, rest: Bytes, d': Bytes, rest': Bytes)
    requires IsTagNumber(d) && IsTagNumber(d') && d + rest == d' + rest'
    ensures d == d' && rest == rest'
  {
    var b := d + rest;
    assert b[|d| - 1] == Last(d) && b[|d'| - 1] == Last(d');
    assert d == b[..|d|] && rest == b[|d|..] && d' == b[..|d'|] && rest' == b[|d'|..];
  }

  lemma TagNumberExactly(b: Bytes)
    ensures forall t, rest :: ParseBase128(b, 0, 0) == Some((t, rest)) <==>
              exists d :: IsTagNumber(d) && b == d + rest && t == LowBits(d)
  {
    var n := TagNumberFrom(b, 0);
    assert b[0..] == b && b[..0] == [];
    hide ParseBase128, LowBits, IsTagNumber;
    forall d, rest | IsTagNumber(d) && b == d + rest
      ensures ParseBase128(b, 0, 0) == Some((LowBits(d), rest))
    {
      TagIsNotEmpty(d);
      assert d == b[..|d|];
      if ParseBase128(b, 0, 0).Some? {
        assert b == b[..n] + b[n..];
        TagNumberIsOne(d, rest, b[..n], b[n..]);
      }
    }
    if ParseBase128(b, 0, 0).Some? {
      assert b == b[..n] + b[n..];
    }
  }

  lemma TagIsNotEmpty(d: Bytes)
    requires IsTagNumber(d)
    ensures d != []
  {
  }

  /** Class, constructed bit and tag number: one octet below 31, and from there on a tag number behind the first. */
  ghost predicate IsIdentifier(id: Bytes, cls: Class, compound: bool, tag: nat) {
    && id != []
    && id[0] == cls * 64 + (if compound then 32 else 0) + (if tag < 31 then tag else 31)
    && if tag < 31 then |id| == 1 else IsTagNumber(id[1..]) && LowBits(id[1..]) == tag
  }

  ghost predicate IsTag(b: Bytes, tag: nat, id: Bytes, rest: Bytes)
    requires b != []
  {
    IsIdentifier(id, b[0] / 64, b[0] / 32 % 2 == 1, tag) && b == id + rest
  }

  lemma TagExactly(b: Bytes)
    requires b != []
    ensures forall tag: nat, rest :: ParseTag(b) == Some((tag, rest)) <==> exists id :: IsTag(b, tag, id, rest)
  {
    TagNumberExactly(b[1..]);
    IdentifierOctet(b[0]);
    assert b == [b[0]] + b[1..];
    hide ParseBase128, LowBits, IsTagNumber;
    forall tag: nat, rest | ParseTag(b) == Some((tag, rest))
      ensures exists id :: IsTag(b, tag, id, rest)
    {
      if tag < 31 {
        assert IsTag(b, tag, [b[0]], rest);
      } else {
        var d :| IsTagNumber(d) && b[1..] == d + rest && tag == LowBits(d);
        ConcatAssociative([b[0]], d, rest);
        assert ([b[0]] + d)[1..] == d;
        assert IsTag(b, tag, [b[0]] + d, rest);
      }
    }
    forall tag: nat, id, rest | IsTag(b, tag, id, rest)
      ensures ParseTag(b) == Some((tag, rest))
    {
      assert id[0] == b[0];
      assert b[1..] == id[1..] + rest;
    }
  }

  /**
   * The parser exactly, for every string and element: identifier octets, the shortest
   * length octets, the contents, and what follows.
   */
  lemma ParseExactly(b: Bytes)
    ensures forall v: RawValue, rest :: Parse(b) == Some((v, rest)) <==>
              && |v.bytes| < MAX_LENGTH && b == v.full + rest
              && exists id :: IsIdentifier(id, v.cls, v.compound, v.tag) && v.full == id + EncodeLength(|v.bytes|) + v.bytes
  {
    forall v: RawValue, rest | Parse(b) == Some((v, rest))
      ensures |v.bytes| < MAX_LENGTH && b == v.full + rest
      ensures exists id :: IsIdentifier(id, v.cls, v.compound, v.tag) && v.full == id + EncodeLength(|v.bytes|) + v.bytes
    {
      var id := ParsedElement(b, v, rest);
    }
    hide Parse, EncodeLength;
    forall v: RawValue, id, rest |
      && |v.bytes| < MAX_LENGTH && b == v.full + rest
      && IsIdentifier(id, v.cls, v.compound, v.tag) && v.full == id + EncodeLength(|v.bytes|) + v.bytes
      ensures Parse(b) == Some((v, rest))
    {
      ElementParsed(b, v, id, rest);
    }
  }

  lemma ParsedElement(b: Bytes, v: RawValue, rest: Bytes) returns (id: Bytes)
    requires Parse(b) == Some((v, rest))
    ensures |v.bytes| < MAX_LENGTH && b == v.full + rest
    ensures IsIdentifier(id, v.cls, v.compound, v.tag) && v.full == id + EncodeLength(|v.bytes|) + v.bytes
  {
    var r := Disassembled(b, v, rest);
    hide ParseTag, ParseLength, EncodeLength, IsIdentifier, Parse;
    TagExactly(b);
    LengthCanonical(r);
    id :| IsTag(b, v.tag, id, r);
    var n := |v.bytes|;
    ConcatAssociative(id, EncodeLength(n), v.bytes + rest);
    ConcatAssociative(id + EncodeLength(n), v.bytes, rest);
    assert b == id + EncodeLength(n) + v.bytes + rest;
    assert v.full == b[..|b| - |rest|];
  }

  lemma Disassembled(b: Bytes, v: RawValue, rest: Bytes) returns (r: Bytes)
    requires Parse(b) == Some((v, rest))
    ensures b != [] && b[0] / 64 == v.cls && (b[0] / 32 % 2 == 1 <==> v.compound)
    ensures ParseTag(b) == Some((v.tag, r)) && ParseLength(r) == Some((|v.bytes|, v.bytes + rest))
    ensures |rest| <= |b| && v.full == b[..|b| - |rest|]
  {
    hide ParseLength;
    r := ParseTag(b).value.1;
    hide ParseTag;
    var after := ParseLength(r).value.1;
    assert after == after[..|v.bytes|] + after[|v.bytes|..];
  }

  lemma FirstOctet(id: Bytes, cls: Class, compound: bool, tag: nat)
    requires IsIdentifier(id, cls, compound, tag)
    ensures id != [] && id[0] / 64 == cls && (id[0] / 32 % 2 == 1 <==> compound)
  {
  }

  lemma ElementParsed(b: Bytes, v: RawValue, id: Bytes, rest: Bytes)
    requires |v.bytes| < MAX_LENGTH && b == v.full + rest
    requires IsIdentifier(id, v.cls, v.compound, v.tag) && v.full == id + EncodeLength(|v.bytes|) + v.bytes
    ensures Parse(b) == Some((v, rest))
  {
    var len, after := EncodeLength(|v.bytes|), v.bytes + rest;
    FirstOctet(id, v.cls, v.compound, v.tag);
    hide ParseTag, ParseLength, EncodeLength, IsIdentifier, Parse;
    ConcatAssociative(id + len, v.bytes, rest);
    ConcatAssociative(id, len, after);
    assert b[0] == id[0];
    TagExactly(b);
    assert IsTag(b, v.tag, id, len + after);
    LengthRoundTrip(|v.bytes|, after);
    Assembled(b, v, len + after, rest);
  }

  lemma Assembled(b: Bytes, v: RawValue, r: Bytes, rest: Bytes)
    requires b != [] && b == v.full + rest && b[0] / 64 == v.cls && (b[0] / 32 % 2 == 1 <==> v.compound)
    requires ParseTag(b) == Some((v.tag, r)) && ParseLength(r) == Some((|v.bytes|, v.bytes + rest))
    ensures Parse(b) == Some((v, rest))
  {
    hide ParseTag, ParseLength;
    assert (v.bytes + rest)[..|v.bytes|] == v.bytes && (v.bytes + rest)[|v.bytes|..] == rest;
    assert b[..|b| - |rest|] == v.full;
  }
}
