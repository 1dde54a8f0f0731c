/** Small shared vocabulary: optional values, results, bytes and sub-sequences. */
module Prelude {

  datatype Option<+T> = None | Some(value: T)

  datatype Result<+T, +E> = Ok(value: T) | Err(error: E)

  /** One octet. */
  type Byte = b: int | 0 <= b < 256

  type Bytes = seq<Byte>

  function Zeros(n: nat): Bytes {
    seq(n, i => 0)
  }

  function Last<T>(s: seq<T>): T
    requires s != []
  {
    s[|s| - 1]
  }

  function Init<T>(s: seq<T>): seq<T>
    requires s != []
  {
    s[..|s| - 1]
  }

  lemma ConcatAssociative<T>(a: seq<T>, b: seq<T>, c: seq<T>)
    ensures (a + b) + c == a + (b + c)
  {
  }

  /** `a` arises from `b` by deleting elements. */
  ghost predicate Subsequence<T(!new)>(a: seq<T>, b: seq<T>) {
    if a == [] then true
    else if b == [] then false
    else (Last(a) == Last(b) && Subsequence(Init(a), Init(b))) || Subsequence(a, Init(b))
  }

  lemma SubsequenceKeep<T(!new)>(a: seq<T>, b: seq<T>, x: T)
    requires Subsequence(a, b)
    ensures Subsequence(a + [x], b + [x])
  {
  }

  lemma SubsequenceSkip<T(!new)>(a: seq<T>, b: seq<T>, x: T)
    requires Subsequence(a, b)
    ensures Subsequence(a, b + [x])
  {
  }

  lemma {:induction false} SubsequenceTransitive<T(!new)>(a: seq<T>, b: seq<T>, c: seq<T>)
    requires Subsequence(a, b) && Subsequence(b, c)
    ensures Subsequence(a, c)
    decreases |c|
  {
    if a != [] && b != [] {
      if Last(b) == Last(c) && Subsequence(Init(b), Init(c)) {
        if Last(a) == Last(b) && Subsequence(Init(a), Init(b)) {
          SubsequenceTransitive(Init(a), Init(b), Init(c));
        } else {
          SubsequenceTransitive(a, Init(b), Init(c));
        }
      } else {
        SubsequenceTransitive(a, b, Init(c));
      }
    }
  }

  lemma {:induction false} SubsequenceLength<T(!new)>(a: seq<T>, b: seq<T>)
    requires Subsequence(a, b)
    ensures |a| <= |b|
    decreases |b|
  {
    if a != [] {
      if Last(a) == Last(b) && Subsequence(Init(a), Init(b)) {
        SubsequenceLength(Init(a), Init(b));
      } else {
        SubsequenceLength(a, Init(b));
      }
    }
  }
}
