/**
 * The part of Go's encoding/asn1 the TPM package relies on: one tag-length-value at a
 * time, with definite minimal lengths (sections 8.1 and 10.1 of X.690), and the contents
 * octets of INTEGER (section 8.3 of X.690).
 */
module Der {
  import opened Prelude

  const UNIVERSAL: Class := 0
  const CONTEXT_SPECIFIC: Class := 2
  const TAG_INTEGER: LowTag := 2
  const TAG_SEQUENCE: LowTag := 16

  /** Lengths from here on are refused by the parser. */
  const MAX_LENGTH := 0x8000_0000

  /** No slice is longer than a Go `int` can count. */
  const MAX_INT := 0x8000_0000_0000_0000

  type Class = c: int | 0 <= c < 4
  type LowTag = t: int | 0 <= t < 31

  datatype RawValue = RawValue(cls: Class, tag: nat, compound: bool, bytes: Bytes, full: Bytes)

  // ---- base 256

  /** Big-endian digits without leading zeros; none for zero. */
  function Digits(n: nat): Bytes {
    if n == 0 then [] else Digits(n / 256) + [n % 256]
  }

  function Value(b: Bytes): nat {
    if b == [] then 0 else Value(Init(b)) * 256 + Last(b)
  }

  function TrimZeros(b: Bytes): Bytes {
    if b != [] && b[0] == 0 then TrimZeros(b[1..]) else b
  }

  lemma {:induction false} ValueOfDigits(n: nat)
    ensures Value(Digits(n)) == n
    ensures n > 0 ==> Digits(n) != [] && Digits(n)[0] != 0
  {
    if n > 0 {
      ValueOfDigits(n / 256);
      assert Init(Digits(n)) == Digits(n / 256);
    }
  }

  lemma DigitsInjective(a: nat, b: nat)
    requires Digits(a) == Digits(b)
    ensures a == b
  {
    ValueOfDigits(a);
    ValueOfDigits(b);
  }

  /** A string without a leading zero is the digits of its value. */
  lemma {:induction false} DigitsOfValue(b: Bytes)
    requires b == [] || b[0] != 0
    ensures Digits(Value(b)) == b
  {
    if b != [] {
      if |b| > 1 {
        DigitsOfValue(Init(b));
        ValueOfDigits(Value(Init(b)));
      }
      assert b == Init(b) + [Last(b)];
      var v := Value(Init(b));
      assert Value(b) / 256 == v && Value(b) % 256 == Last(b);
      assert Value(b) > 0;
    }
  }

  lemma {:induction false} ValueOfPadded(b: Bytes)
    ensures Value([0] + b) == Value(b)
  {
    if b != [] {
      ValueOfPadded(Init(b));
      assert Init([0] + b) == [0] + Init(b);
    }
  }

  lemma {:induction false} TrimKeepsValue(b: Bytes)
    ensures Value(TrimZeros(b)) == Value(b)
    ensures TrimZeros(b) == [] || TrimZeros(b)[0] != 0
    ensures |TrimZeros(b)| <= |b|
    ensures Digits(Value(b)) == TrimZeros(b)
  {
    if b != [] && b[0] == 0 {
      TrimKeepsValue(b[1..]);
      ValueOfPadded(b[1..]);
      assert b == [0] + b[1..];
    }
    DigitsOfValue(TrimZeros(b));
  }

  // ---- length octets

  function EncodeLength(n: nat): Bytes {
    if n < 128 then [n] else [128 + |Digits(n)| % 128] + Digits(n)
  }

  function ParseLength(b: Bytes): (r: Option<(nat, Bytes)>)
    ensures r.Some? ==> |r.value.1| < |b|
  {
    if b == [] then None
    else if b[0] < 128 then Some((b[0], b[1..]))
    else if b[0] == 128 then None
    else
      match LengthOctets(b[1..], b[0] - 128, 0)
      case None => None
      case Some(p) => if p.0 < 128 then None else Some(p)
  }

  /** `k` more length octets; no leading zero octet, and no shift past 31 bits. */
  function LengthOctets(b: Bytes, k: nat, acc: nat): (r: Option<(nat, Bytes)>)
    ensures r.Some? ==> |r.value.1| <= |b|
  {
    if k == 0 then Some((acc, b))
    else if b == [] || acc >= 0x80_0000 || acc * 256 + b[0] == 0 then None
    else LengthOctets(b[1..], k - 1, acc * 256 + b[0])
  }

  lemma DigitsSnoc(n: nat, d: Byte)
    requires n * 256 + d > 0
    ensures Digits(n * 256 + d) == Digits(n) + [d]
  {
  }

  lemma {:induction false} LengthOctetsAre(b: Bytes, k: nat, acc: nat)
    requires LengthOctets(b, k, acc).Some?
    requires acc < MAX_LENGTH
    ensures var (n, rest) := LengthOctets(b, k, acc).value;
            k <= |b| && rest == b[k..] && n < MAX_LENGTH && Digits(n) == Digits(acc) + b[..k]
  {
    if k > 0 {
      LengthOctetsAre(b[1..], k - 1, acc * 256 + b[0]);
      DigitsSnoc(acc, b[0]);
      assert b[..k] == [b[0]] + b[1..][..k - 1];
    } else {
      assert b[..0] == [];
    }
  }

  /** A number is at least 256 times any proper prefix of its digits. */
  lemma {:induction false} PrefixIsSmaller(n: nat, acc: nat, d: Bytes)
    requires Digits(n) == Digits(acc) + d && d != []
    ensures n >= acc * 256
    decreases |d|
  {
    assert n > 0;
    assert Digits(n / 256) == Init(Digits(n)) == Digits(acc) + Init(d);
    if |d| == 1 {
      assert Digits(acc) + [] == Digits(acc);
      DigitsInjective(n / 256, acc);
    } else {
      PrefixIsSmaller(n / 256, acc, Init(d));
    }
  }

  lemma {:induction false} LengthOctetsParse(n: nat, acc: nat, d: Bytes, rest: Bytes)
    requires Digits(n) == Digits(acc) + d
    requires n < MAX_LENGTH || d != []
    ensures LengthOctets(d + rest, |d|, acc) == if n < MAX_LENGTH then Some((n, rest)) else None
    decreases |d|
  {
    if d == [] {
      assert Digits(acc) + [] == Digits(acc) && [] + rest == rest;
      DigitsInjective(n, acc);
    } else {
      PrefixIsSmaller(n, acc, d);
      if acc < 0x80_0000 {
        var next := acc * 256 + d[0];
        ValueOfDigits(n);
        assert next > 0;
        DigitsSnoc(acc, d[0]);
        assert Digits(acc) + d == Digits(next) + d[1..];
        assert (d + rest)[1..] == d[1..] + rest;
        if d[1..] == [] {
          assert Digits(next) + [] == Digits(next);
          DigitsInjective(n, next);
        }
        LengthOctetsParse(n, next, d[1..], rest);
      }
    }
  }

  lemma ShortDigits(n: nat)
    requires n < MAX_INT
    ensures |Digits(n)| <= 8
    ensures n < MAX_LENGTH ==> |Digits(n)| <= 4
  {
    var h := n / 0x1_0000_0000;
    assert h < 0x8000_0000;
    FourDigits(h);
    FourMoreDigits(n);
  }

  lemma FourDigits(n: nat)
    requires n < 0x1_0000_0000
    ensures |Digits(n)| <= 4
  {
    var a, b, c := n / 256, n / 256 / 256, n / 256 / 256 / 256;
    assert c < 256 && c / 256 == 0;
    assert |Digits(c)| <= 1;
    assert |Digits(b)| <= 2;
    assert |Digits(a)| <= 3;
  }

  lemma FourMoreDigits(n: nat)
    ensures |Digits(n)| <= |Digits(n / 0x1_0000_0000)| + 4
    ensures n < 0x1_0000_0000 ==> |Digits(n)| <= 4
  {
    var a, b, c := n / 256, n / 256 / 256, n / 256 / 256 / 256;
    assert c / 256 == n / 0x1_0000_0000;
    assert |Digits(c)| <= |Digits(c / 256)| + 1;
    assert |Digits(b)| <= |Digits(c)| + 1;
    assert |Digits(a)| <= |Digits(b)| + 1;
  }

  /** What is encoded is parsed back, whatever follows, below the parser's limit. */
  lemma LengthRoundTrip(n: nat, rest: Bytes)
    requires n < MAX_INT
    ensures ParseLength(EncodeLength(n) + rest) == if n < MAX_LENGTH then Some((n, rest)) else None
  {
    if n >= 128 {
      LongLengthRoundTrip(n, Digits(n), rest);
    } else {
      assert ([n] + rest)[1..] == rest;
    }
  }

  lemma LongLengthRoundTrip(n: nat, d: Bytes, rest: Bytes)
    requires 128 <= n < MAX_INT && d == Digits(n)
    ensures ParseLength([128 + |d| % 128] + d + rest) == if n < MAX_LENGTH then Some((n, rest)) else None
  {
    ShortDigits(n);
    ValueOfDigits(n);
    var b := [128 + |d| % 128] + d + rest;
    assert |d| % 128 == |d| && b[0] == 128 + |d|;
    assert b[1..] == d + rest;
    assert Digits(0) + d == Digits(n);
    LengthOctetsParse(n, 0, d, rest);
  }

  /** Only the minimal encoding of a length is accepted (section 10.1 of X.690). */
  lemma LengthCanonical(b: Bytes)
    requires ParseLength(b).Some?
    ensures var (n, rest) := ParseLength(b).value;
            n < MAX_LENGTH && b == EncodeLength(n) + rest
  {
    var (n, rest) := ParseLength(b).value;
    if b[0] >= 128 {
      var k := b[0] - 128;
      LengthOctetsAre(b[1..], k, 0);
      assert Digits(n) == b[1..][..k];
      assert b == [b[0]] + b[1..][..k] + b[1..][k..];
    }
  }

  // ---- identifier octets

  /** A tag number in base 128, at most 31 bits wide and without a leading zero digit. */
  function ParseBase128(b: Bytes, shifted: nat, acc: nat): (r: Option<(nat, Bytes)>)
    ensures r.Some? ==> |r.value.1| < |b|
    decreases |b|
  {
    if b == [] || shifted == 5 || (shifted == 0 && b[0] == 128) then None
    else
      var acc' := acc * 128 + b[0] % 128;
      if b[0] >= 128 then ParseBase128(b[1..], shifted + 1, acc')
      else if acc' >= MAX_LENGTH then None
      else Some((acc', b[1..]))
  }

  function ParseTag(b: Bytes): (r: Option<(nat, Bytes)>)
    requires b != []
    ensures r.Some? ==> |r.value.1| < |b|
  {
    if b[0] % 32 < 31 then Some((b[0] % 32, b[1..]))
    else
      match ParseBase128(b[1..], 0, 0)
      case None => None
      case Some(p) => if p.0 < 31 then None else Some(p)
  }

  // ---- one tag-length-value

  /** `asn1.Unmarshal` into a RawValue: the first element and what follows it. */
  function Parse(b: Bytes): Option<(RawValue, Bytes)> {
    if b == [] then None
    else
      match ParseTag(b)
      case None => None
      case Some((tag, r)) =>
        match ParseLength(r)
        case None => None
        case Some((n, rest)) =>
          if n > |rest| then None
          else
            Some((RawValue(b[0] / 64, tag, b[0] / 32 % 2 == 1, rest[..n],
                           b[..|b| - (|rest| - n)]), rest[n..]))
  }

  /** `asn1.Marshal` of a RawValue without full bytes. */
  function Encode(cls: Class, compound: bool, tag: LowTag, body: Bytes): (r: Bytes)
    ensures |r| > |body|
  {
    [cls * 64 + (if compound then 32 else 0) + tag] + EncodeLength(|body|) + body
  }

  /** Encoding then parsing gives the element back, with its own bytes and what followed it. */
  lemma ParseEncoded(cls: Class, compound: bool, tag: LowTag, body: Bytes, rest: Bytes)
    requires |body| < MAX_INT
    ensures var full := Encode(cls, compound, tag, body);
            Parse(full + rest) ==
              if |body| < MAX_LENGTH then Some((RawValue(cls, tag, compound, body, full), rest)) else None
  {
    var full := Encode(cls, compound, tag, body);
    var b := full + rest;
    var len := EncodeLength(|body|);
    var id := b[0];
    assert id / 64 == cls && id % 32 == tag && (id / 32 % 2 == 1 <==> compound);
    assert b[1..] == len + (body + rest);
    LengthRoundTrip(|body|, body + rest);
    assert (body + rest)[..|body|] == body && (body + rest)[|body|..] == rest;
    assert b[..|b| - |rest|] == full;
  }

  /** An element with a low tag number is accepted only in its one encoding. */
  lemma ParseCanonical(b: Bytes)
    requires Parse(b).Some? && Parse(b).value.0.tag < 31
    ensures var (v, rest) := Parse(b).value;
            && |v.bytes| < MAX_LENGTH
            && v.full == Encode(v.cls, v.compound, v.tag, v.bytes)
            && b == v.full + rest
  {
    var (v, rest) := Parse(b).value;
    var (tag, r) := ParseTag(b).value;
    LengthCanonical(r);
    var (n, after) := ParseLength(r).value;
    assert after == v.bytes + rest;
    assert b == [b[0]] + r && r == EncodeLength(n) + after;
    IdentifierOctet(b[0]);
    ConcatAssociative([b[0]], EncodeLength(n), after);
    ConcatAssociative([b[0]] + EncodeLength(n), v.bytes, rest);
    assert v.full == b[..|b| - |rest|];
  }

  lemma IdentifierOctet(b: Byte)
    ensures b == b / 64 * 64 + (if b / 32 % 2 == 1 then 32 else 0) + b % 32
  {
  }
}
