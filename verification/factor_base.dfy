/** The factor base: `eratosthenesSieve` lists 2 .. size-1, strikes out
    multiples of every `p` with `p*p < size`, and puts the sign
    pseudo-prime -1 in front. */
module FactorBase {

  predicate IsPrime(n: int) {
    n >= 2 && forall d :: 2 <= d < n ==> n % d != 0
  }

  predicate StrictlyIncreasing(s: seq<int>) {
    forall a, b :: 0 <= a < b < |s| ==> s[a] < s[b]
  }

  /** `ArrayList.indexOf`: the first position holding `x`, or -1. */
  function IndexOf(s: seq<int>, x: int): (r: int)
    ensures r == -1 <==> x !in s
    ensures r != -1 ==> 0 <= r < |s| && s[r] == x && x !in s[..r]
  {
    if |s| == 0 then -1
    else if s[0] == x then 0
    else
      var r := IndexOf(s[1..], x);
      assert s[1..][..if r < 0 then 0 else r] == s[1..1 + (if r < 0 then 0 else r)];
      if r == -1 then -1 else r + 1
  }

  /** The candidate list 2, 3, ..., n-1. */
  function Upto(n: int): (s: seq<int>)
    ensures |s| == if n < 2 then 0 else n - 2
    ensures forall k :: 0 <= k < |s| ==> s[k] == k + 2
  {
    if n <= 2 then [] else Upto(n - 1) + [n - 1]
  }

  method EratosthenesSieve(size: int) returns (primes: seq<int>)
    ensures |primes| >= 1 && primes[0] == -1
    ensures StrictlyIncreasing(primes[1..])
    ensures forall k :: 1 <= k < |primes| ==> 2 <= primes[k] < size
    ensures forall q :: 2 <= q < size && IsPrime(q) ==> q in primes[1..]
    ensures size <= 2 ==> primes == [-1]
  {
    var list := Upto(size);
    forall q | 2 <= q < size
      ensures q in list
    {
      assert list[q - 2] == q;
    }
    var p := 2;
    while p * p < size
      invariant p >= 2
      invariant StrictlyIncreasing(list)
      invariant forall k :: 0 <= k < |list| ==> 2 <= list[k] < size
      invariant forall q :: 2 <= q < size && IsPrime(q) ==> q in list
      decreases size - p
    {
      var next := StrikeMultiples(list, p);
      forall q | 2 <= q < size && IsPrime(q)
        ensures q in next
      {
        if q % p == 0 && q != p {
          NotPrimeWhenDivisible(q, p);
        }
      }
      forall k | 0 <= k < |next|
        ensures 2 <= next[k] < size
      {
        assert next[k] in next;
      }
      list := next;
      p := p + 1;
    }
    assert |list| > 0 ==> 2 <= list[0] < size;
    primes := [-1] + list;
    assert primes[1..] == list;
  }

  /** One pass of the inner loop for a fixed `p`: starting just after `p`
      (or at the front when `p` is absent), every element divisible by `p`
      is removed, and the element that slides into its place is not looked
      at. Only multiples of `p` other than `p` itself can disappear. */
  method StrikeMultiples(list: seq<int>, p: int) returns (out: seq<int>)
    requires p >= 2 && StrictlyIncreasing(list)
    ensures StrictlyIncreasing(out)
    ensures forall x :: x in out ==> x in list
    ensures forall x :: x in list && (x % p != 0 || x == p) ==> x in out
  {
    out := list;
    var i := IndexOf(out, p) + 1;
    while i < |out|
      invariant 0 <= i <= |out| + 1
      invariant StrictlyIncreasing(out)
      invariant forall x :: x in out ==> x in list
      invariant forall x :: x in list && (x % p != 0 || x == p) ==> x in out
      invariant forall k :: i <= k < |out| ==> out[k] != p
      decreases |out| - i
    {
      if out[i] % p == 0 {
        RemoveAtKeepsOthers(out, i);
        out := out[..i] + out[i + 1..];
      }
      i := i + 1;
    }
  }

  /** Removing position `i` keeps the order and every other value. */
  lemma RemoveAtKeepsOthers(s: seq<int>, i: int)
    requires 0 <= i < |s| && StrictlyIncreasing(s)
    ensures StrictlyIncreasing(s[..i] + s[i + 1..])
    ensures forall x :: x in s[..i] + s[i + 1..] ==> x in s
    ensures forall x :: x in s && x != s[i] ==> x in s[..i] + s[i + 1..]
  {
    var t := s[..i] + s[i + 1..];
    assert forall k :: 0 <= k < |t| ==> t[k] == if k < i then s[k] else s[k + 1];
    forall x | x in s && x != s[i]
      ensures x in t
    {
      var k :| 0 <= k < |s| && s[k] == x;
      if k < i { assert t[k] == x; } else { assert t[k - 1] == x; }
    }
  }

  /** A number with a proper divisor `p >= 2` is composite. */
  lemma NotPrimeWhenDivisible(n: int, p: int)
    requires n >= 2 && p >= 2 && n != p && n % p == 0
    ensures !IsPrime(n)
  {
    assert 2 <= p < n && n % p == 0;
  }
}
