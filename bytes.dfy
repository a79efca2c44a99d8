/** Shared vocabulary of the model: bytes, optional values, whitespace,
    flattening of string lists and integer sums. */
module Bytes {

  /** One byte of a C++ `std::string`; the source compares and masks bytes
      as `unsigned char`. */
  type byte = bv8

  datatype Option<+T> = None | Some(value: T)

  /** The bytes `isspace` accepts in the "C" locale (also what the `\s`
      class of `std::regex` matches): space, `\t`, `\n`, `\v`, `\f`, `\r`. */
  predicate IsSpace(b: byte) {
    b == 0x20 || b == 0x09 || b == 0x0A || b == 0x0B || b == 0x0C || b == 0x0D
  }

  predicate AllSpace(s: seq<byte>) {
    forall i :: 0 <= i < |s| ==> IsSpace(s[i])
  }

  /** The bytes of `s` that are not whitespace, in order. */
  function NonSpace(s: seq<byte>): (r: seq<byte>)
    ensures |r| <= |s|
    ensures forall i :: 0 <= i < |r| ==> !IsSpace(r[i])
  {
    if s == [] then []
    else if IsSpace(s[0]) then NonSpace(s[1..])
    else [s[0]] + NonSpace(s[1..])
  }

  lemma {:induction false} NonSpaceAppend(a: seq<byte>, b: seq<byte>)
    ensures NonSpace(a + b) == NonSpace(a) + NonSpace(b)
  {
    if a != [] {
      assert (a + b)[1..] == a[1..] + b;
      NonSpaceAppend(a[1..], b);
    } else {
      assert a + b == b;
    }
  }

  /** Concatenation of a list of strings, in order. */
  function Flatten<T>(ss: seq<seq<T>>): seq<T> {
    if ss == [] then [] else ss[0] + Flatten(ss[1..])
  }

  lemma {:induction false} FlattenAppend<T>(a: seq<seq<T>>, b: seq<seq<T>>)
    ensures Flatten(a + b) == Flatten(a) + Flatten(b)
  {
    if a == [] {
      assert a + b == b;
    } else {
      assert (a + b)[1..] == a[1..] + b;
      FlattenAppend(a[1..], b);
    }
  }

  /** `std::accumulate(v.begin(), v.end(), 0)`. */
  function Sum(s: seq<int>): int {
    if s == [] then 0 else s[0] + Sum(s[1..])
  }

  lemma {:induction false} SumAppend(a: seq<int>, b: seq<int>)
    ensures Sum(a + b) == Sum(a) + Sum(b)
  {
    if a == [] {
      assert a + b == b;
    } else {
      assert (a + b)[1..] == a[1..] + b;
      SumAppend(a[1..], b);
    }
  }

  /** Extending a prefix by one element adds that element to its sum. */
  lemma {:induction false} SumPrefixStep(s: seq<int>, i: nat)
    requires i < |s|
    ensures Sum(s[..i + 1]) == Sum(s[..i]) + s[i]
  {
    assert s[..i + 1] == s[..i] + [s[i]];
    SumAppend(s[..i], [s[i]]);
  }

  /** Lowering one entry by one lowers the sum by one. */
  lemma {:induction false} SumDecrement(s: seq<int>, i: nat)
    requires i < |s|
    ensures Sum(s[i := s[i] - 1]) == Sum(s) - 1
  {
    if i == 0 {
      assert s[i := s[i] - 1][1..] == s[1..];
    } else {
      assert s[i := s[i] - 1][1..] == s[1..][i - 1 := s[i] - 1];
      SumDecrement(s[1..], i - 1);
    }
  }

  predicate AllZero(s: seq<int>) {
    forall i :: 0 <= i < |s| ==> s[i] == 0
  }

  lemma {:induction false} SumAllZero(s: seq<int>)
    requires AllZero(s)
    ensures Sum(s) == 0
  {
    if s != [] {
      SumAllZero(s[1..]);
    }
  }

  predicate NonNegative(s: seq<int>) {
    forall i :: 0 <= i < |s| ==> s[i] >= 0
  }

  lemma {:induction false} SumPrefixMonotone(s: seq<int>, i: nat, j: nat)
    requires NonNegative(s) && i <= j <= |s|
    ensures Sum(s[..i]) <= Sum(s[..j])
    decreases j - i
  {
    if i < j {
      SumPrefixStep(s, j - 1);
      SumPrefixMonotone(s, i, j - 1);
    }
  }

  function Zeros(n: int): (r: seq<int>)
    ensures |r| == if n > 0 then n else 0
    ensures AllZero(r)
  {
    if n <= 0 then [] else Zeros(n - 1) + [0]
  }

  function Min(a: int, b: int): int { if a <= b then a else b }
  function Max(a: int, b: int): int { if a >= b then a else b }

  lemma {:induction false} MulAtLeast(k: int, n: nat)
    requires k >= 1
    ensures k * n >= n
  {
    assert (k - 1) * n >= 0;
  }

  /** Euclidean division by `cols` recovers the quotient and remainder. */
  lemma {:induction false} DivUnique(x: int, cols: nat, q: int, r: int)
    requires cols > 0 && 0 <= r < cols && x == q * cols + r
    ensures x / cols == q && x % cols == r
  {
    var q', r' := x / cols, x % cols;
    assert (q - q') * cols == r' - r;
    if q > q' {
      MulAtLeast(q - q', cols);
    } else if q < q' {
      MulAtLeast(q' - q, cols);
    }
  }
}
