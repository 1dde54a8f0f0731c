/**
 * Wrapping and unwrapping case by case: which bytes are produced, which error is returned
 * and what decides between them, for any sealer and any buffer.
 */
module WrapExact {
  import opened Prelude
  import opened Wrap

  // ---- unwrapping

  function Joined(parts: seq<seq<Byte>>): seq<Byte> {
    if parts == [] then [] else parts[0] + Joined(parts[1..])
  }

  /** The buffer starts with these segments, which open to these parts; `rest` follows. */
  ghost predicate Opens<S>(unseals: Unseals<S>, session: S, b: seq<Byte>, ss: seq<Sealed>, parts: seq<seq<Byte>>,
                           rest: seq<Byte>) {
    && |ss| == |parts|
    && (forall k :: 0 <= k < |ss| ==> Fits(ss[k]) && unseals(ss[k], session) == Ok(parts[k]))
    && b == Frame(ss) + rest
  }

  /** Behind fewer than `n` segments that open, the buffer holds one that answers `why`. */
  ghost predicate StopsAt<S>(unseals: Unseals<S>, session: S, b: seq<Byte>, n: nat, ss: seq<Sealed>,
                             parts: seq<seq<Byte>>, s: Sealed, rest: seq<Byte>, why: string) {
    && Opens(unseals, session, b, ss, parts, Segment(s) + rest)
    && |ss| < n && Fits(s) && unseals(s, session) == Err(why)
  }

  /** A segment is its two parts behind their lengths, and both parts fit. */
  lemma SegmentTaken(b: seq<Byte>)
    requires SegmentAhead(b)
    ensures Fits(Ahead(b)) && b == Segment(Ahead(b)) + Behind(b)
  {
    var priv: int := b[0];
    var pub: int := b[1 + priv];
    assert b == [b[0]] + b[1..1 + priv] + [b[1 + priv]] + b[2 + priv..2 + priv + pub] + b[2 + priv + pub..];
  }

  lemma OpensOneMore<S>(unseals: Unseals<S>, session: S, b: seq<Byte>, s: Sealed, part: seq<Byte>,
                        ss: seq<Sealed>, parts: seq<seq<Byte>>, rest: seq<Byte>)
    requires Fits(s) && unseals(s, session) == Ok(part) && Opens(unseals, session, b, ss, parts, rest)
    ensures Opens(unseals, session, Segment(s) + b, [s] + ss, [part] + parts, rest)
  {
    FrameFront(s, ss);
    ConcatAssociative(Segment(s), Frame(ss), rest);
  }

  lemma FirstOpens<S>(unseals: Unseals<S>, session: S, s: Sealed, part: seq<Byte>, more: seq<Byte>, n: nat)
    requires Fits(s) && unseals(s, session) == Ok(part) && n > 0 && InBounds(unseals, session, Segment(s) + more, n)
    ensures InBounds(unseals, session, more, n - 1)
    ensures OpenAll(unseals, session, Segment(s) + more, n) == PrependData(part, OpenAll(unseals, session, more, n - 1))
  {
    SegmentReadsBack(s, more);
  }

  /** Segments that open can be taken off the front. */
  lemma {:induction false} OpenedFront<S>(unseals: Unseals<S>, session: S, b: seq<Byte>, n: nat, ss: seq<Sealed>,
                                          parts: seq<seq<Byte>>, rest: seq<Byte>)
    requires InBounds(unseals, session, b, n) && Opens(unseals, session, b, ss, parts, rest) && |ss| <= n
    ensures InBounds(unseals, session, rest, n - |ss|)
    ensures OpenAll(unseals, session, b, n) == PrependData(Joined(parts), OpenAll(unseals, session, rest, n - |ss|))
    decreases |ss|
  {
    hide InBounds, OpenAll, Segment, Fits, PrependData;
    if ss == [] {
      assert b == rest;
      PrependNoData(OpenAll(unseals, session, rest, n));
    } else {
      var s, part, others, more := ss[0], parts[0], ss[1..], Frame(ss[1..]) + rest;
      assert ss == [s] + others;
      FrameFront(s, others);
      ConcatAssociative(Segment(s), Frame(others), rest);
      hide Frame;
      assert b == Segment(s) + more;
      FirstOpens(unseals, session, s, part, more, n);
      assert Opens(unseals, session, more, others, parts[1..], rest);
      OpenedFront(unseals, session, more, n - 1, others, parts[1..], rest);
      PrependDataTwice(part, Joined(parts[1..]), OpenAll(unseals, session, rest, n - |ss|));
    }
  }

  /** The segments an unwrapping looks at: all that were announced, or those before the first that does not open. */
  lemma {:induction false} Looked<S>(unseals: Unseals<S>, session: S, b: seq<Byte>, n: nat)
      returns (ss: seq<Sealed>, parts: seq<seq<Byte>>, s: Sealed, rest: seq<Byte>)
    requires InBounds(unseals, session, b, n)
    ensures match OpenAll(unseals, session, b, n)
            case Ok(_) => Opens(unseals, session, b, ss, parts, rest) && |ss| == n
            case Err(e) => e.UnsealFailed? && StopsAt(unseals, session, b, n, ss, parts, s, rest, e.why)
    decreases n
  {
    ss, parts, s, rest := [], [], Sealed([], []), b;
    assert [] + b == b;
    if n > 0 {
      SegmentTaken(b);
      s := Ahead(b);
      match unseals(s, session)
      case Err(_) =>
        rest := Behind(b);
      case Ok(part) =>
        var first, behind := s, Behind(b);
        var r := OpenAll(unseals, session, behind, n - 1);
        assert OpenAll(unseals, session, b, n) == PrependData(part, r);
        hide OpenAll, InBounds, Segment, Frame, Fits;
        ss, parts, s, rest := Looked(unseals, session, behind, n - 1);
        OpensOneMore(unseals, session, behind, first, part, ss, parts, if r.Ok? then rest else Segment(s) + rest);
        ss, parts := [first] + ss, [part] + parts;
    }
  }

  /**
   * Unwrapping exactly, with no assumption on the sealer. The reserved counts are refused.
   * Otherwise a payload is returned exactly when as many segments as announced open, and is
   * then what they open to, in order; and a failure to unseal exactly when one of them does
   * not open, with the answer of the first such.
   */
  lemma UnwrapsExactly<S(!new)>(unseals: Unseals<S>, session: S, sealedData: seq<Byte>)
    requires Readable(unseals, session, sealedData)
    ensures var n, b, r := sealedData[0], sealedData[1..], Unwrapped(unseals, session, sealedData);
            && (r == Err(CorruptedData) <==> n == 0 || n == 255)
            && (forall data :: r == Ok(data) <==>
                  n != 0 && n != 255
                  && exists ss, parts, rest :: Opens(unseals, session, b, ss, parts, rest) && |ss| == n && Joined(parts) == data)
            && (forall why :: r == Err(UnsealFailed(why)) <==>
                  n != 0 && n != 255
                  && exists ss, parts, s, rest :: StopsAt(unseals, session, b, n, ss, parts, s, rest, why))
            && r != Err(TooMuchData)
  {
    var n, b := sealedData[0], sealedData[1..];
    if n != 0 && n != 255 {
      var ss, parts, s, rest := Looked(unseals, session, b, n);
      forall ss, parts, rest | Opens(unseals, session, b, ss, parts, rest) && |ss| == n
        ensures OpenAll(unseals, session, b, n) == Ok(Joined(parts))
      {
        OpenedFront(unseals, session, b, n, ss, parts, rest);
        assert Joined(parts) + [] == Joined(parts);
      }
      forall ss, parts, s, rest, why | StopsAt(unseals, session, b, n, ss, parts, s, rest, why)
        ensures OpenAll(unseals, session, b, n) == Err(UnsealFailed(why))
      {
        OpenedFront(unseals, session, b, n, ss, parts, Segment(s) + rest);
        SegmentReadsBack(s, rest);
      }
    }
  }

  /** The smallest wrapped buffer, and what becomes of a sealer's refusal. */
  lemma OneSegment<S(!new)>(unseals: Unseals<S>, session: S, why: string)
    requires unseals(Sealed([7], [9]), session) == Err(why)
    ensures Readable(unseals, session, [1, 1, 7, 1, 9])
    ensures Unwrapped(unseals, session, [1, 1, 7, 1, 9]) == Err(UnsealFailed(why))
  {
    var b: seq<Byte> := [1, 7, 1, 9];
    assert [1, 1, 7, 1, 9][1..] == b;
    assert Ahead(b) == Sealed([7], [9]);
  }

  // ---- wrapping

  /** What the sealer answers for chunk `k`. */
  function Answer(seals: Seals, at: nat, data: seq<Byte>, policy: Policy, k: nat): Result<Sealed, string>
    requires k < Ceiling(|data|)
  {
    seals(at + k, Chunk(data, k), policy)
  }

  ghost predicate IsSealed(seals: Seals, at: nat, data: seq<Byte>, policy: Policy, k: nat) {
    && k < Ceiling(|data|)
    && Answer(seals, at, data, policy, k).Ok? && Fits(Answer(seals, at, data, policy, k).value)
  }

  /** Chunk `k` is the first that is refused or sealed to parts that do not fit. */
  ghost predicate StopsSealing(seals: Seals, at: nat, data: seq<Byte>, policy: Policy, k: nat, e: Error) {
    && k < Ceiling(|data|)
    && (forall j :: 0 <= j < k ==> IsSealed(seals, at, data, policy, j))
    && match Answer(seals, at, data, policy, k)
       case Err(why) => e == SealFailed(why)
       case Ok(s) => !Fits(s) && e == TooMuchData
  }

  ghost predicate AllSealed(seals: Seals, at: nat, data: seq<Byte>, policy: Policy, ss: seq<Sealed>) {
    && |ss| == Ceiling(|data|)
    && forall k :: 0 <= k < |ss| ==> IsSealed(seals, at, data, policy, k) && ss[k] == Answer(seals, at, data, policy, k).value
  }

  lemma AnswerBehind(seals: Seals, at: nat, data: seq<Byte>, policy: Policy)
    requires data != []
    ensures var rest := data[ChunkLength(|data|)..];
            && Ceiling(|data|) == Ceiling(|rest|) + 1
            && forall k :: 0 < k < Ceiling(|data|) ==>
                 Answer(seals, at, data, policy, k) == Answer(seals, at + 1, rest, policy, k - 1)
    ensures Answer(seals, at, data, policy, 0) == seals(at, data[..ChunkLength(|data|)], policy)
  {
    var rest := data[ChunkLength(|data|)..];
    ChunkBehind(data, 0);
    forall k | 0 < k < Ceiling(|data|)
      ensures Answer(seals, at, data, policy, k) == Answer(seals, at + 1, rest, policy, k - 1)
    {
      ChunkBehind(data, k);
    }
  }

  lemma {:induction false} SealAllTells(seals: Seals, at: nat, data: seq<Byte>, policy: Policy) returns (k: nat)
    ensures match SealAll(seals, at, data, policy)
            case Ok(ss) => AllSealed(seals, at, data, policy, ss)
            case Err(e) => StopsSealing(seals, at, data, policy, k, e)
    decreases |data|
  {
    k := 0;
    if data != [] {
      var rest := data[ChunkLength(|data|)..];
      AnswerBehind(seals, at, data, policy);
      var first := Answer(seals, at, data, policy, 0);
      if first.Ok? && Fits(first.value) {
        var j := SealAllTells(seals, at + 1, rest, policy);
        hide Answer, ChunkLength, Ceiling, Fits;
        k := j + 1;
        FirstSealed(seals, at, data, policy, rest, SealAll(seals, at + 1, rest, policy), j);
      }
    }
  }

  lemma FirstSealed(seals: Seals, at: nat, data: seq<Byte>, policy: Policy, rest: seq<Byte>,
                    r: Result<seq<Sealed>, Error>, j: nat)
    requires Ceiling(|data|) == Ceiling(|rest|) + 1 && IsSealed(seals, at, data, policy, 0)
    requires forall k :: 0 < k < Ceiling(|data|) ==>
               Answer(seals, at, data, policy, k) == Answer(seals, at + 1, rest, policy, k - 1)
    requires match r
             case Ok(ss) => AllSealed(seals, at + 1, rest, policy, ss)
             case Err(e) => StopsSealing(seals, at + 1, rest, policy, j, e)
    ensures match r
            case Ok(ss) => AllSealed(seals, at, data, policy, [Answer(seals, at, data, policy, 0).value] + ss)
            case Err(e) => StopsSealing(seals, at, data, policy, j + 1, e)
  {
    hide Answer, Ceiling, Fits;
    var n := if r.Ok? then |r.value| else j;
    forall i | 1 <= i <= n
      ensures IsSealed(seals, at, data, policy, i)
    {
      assert IsSealed(seals, at + 1, rest, policy, i - 1);
    }
    if r.Ok? {
      forall i | 1 <= i <= n
        ensures IsSealed(seals, at, data, policy, i) && r.value[i - 1] == Answer(seals, at, data, policy, i).value
      {
        assert IsSealed(seals, at + 1, rest, policy, i - 1);
      }
    }
  }

  lemma StopsOnce(seals: Seals, at: nat, data: seq<Byte>, policy: Policy, j: nat, e: Error, k: nat, f: Error)
    requires StopsSealing(seals, at, data, policy, j, e) && StopsSealing(seals, at, data, policy, k, f)
    ensures e == f
  {
    assert !IsSealed(seals, at, data, policy, j) && !IsSealed(seals, at, data, policy, k);
  }

  lemma SealedNeverStops(seals: Seals, at: nat, data: seq<Byte>, policy: Policy, ss: seq<Sealed>, k: nat, e: Error)
    requires AllSealed(seals, at, data, policy, ss)
    ensures !StopsSealing(seals, at, data, policy, k, e)
  {
    if k < |ss| { assert IsSealed(seals, at, data, policy, k); }
  }

  /**
   * Wrapping exactly: data past the limit is too much without a call; otherwise the result
   * is the framed seals of the chunks in order, unless one is refused or does not fit, and
   * then the first such decides the error.
   */
  lemma WrapsExactly(seals: Seals, at: nat, data: seq<Byte>, policy: Policy)
    ensures forall w: seq<Byte> :: Wrapped(seals, at, data, policy) == Ok(w) <==>
              && |data| <= 128 * 254
              && exists ss :: AllSealed(seals, at, data, policy, ss) && w == [|ss| % 256] + Frame(ss)
    ensures forall e :: Wrapped(seals, at, data, policy) == Err(e) <==>
              if |data| > 128 * 254 then e == TooMuchData
              else exists k :: StopsSealing(seals, at, data, policy, k, e)
  {
    var k := SealAllTells(seals, at, data, policy);
    hide SealAll, Frame, Answer;
    if SealAll(seals, at, data, policy).Ok? {
      SealedCount(seals, at, data, policy);
      assert forall ss :: AllSealed(seals, at, data, policy, ss) ==> ss == SealAll(seals, at, data, policy).value;
      forall j, e
        ensures !StopsSealing(seals, at, data, policy, j, e)
      {
        SealedNeverStops(seals, at, data, policy, SealAll(seals, at, data, policy).value, j, e);
      }
    } else {
      forall ss
        ensures !AllSealed(seals, at, data, policy, ss)
      {
        if AllSealed(seals, at, data, policy, ss) {
          SealedNeverStops(seals, at, data, policy, ss, k, SealAll(seals, at, data, policy).error);
        }
      }
    }
    forall i, j, e, f | StopsSealing(seals, at, data, policy, i, e) && StopsSealing(seals, at, data, policy, j, f)
      ensures e == f
    {
      StopsOnce(seals, at, data, policy, i, e, j, f);
    }
  }
}
