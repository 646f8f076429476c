/** Bytes, optional values, big-endian integers, string order and what has held since a moment, shared by the other
    modules. */
module Basics {

  type Byte = b: int | 0 <= b < 256
  type Bytes = seq<Byte>

  datatype Option<T> = None | Some(value: T)

  const U32: nat := 0x1_0000_0000
  const U64: nat := 0x1_0000_0000_0000_0000

  const U64_LEN: nat := 8

  /** `x` kept in 32 bits. */
  function Wrap32(x: nat): (r: nat)
    ensures r < U32
    ensures x < U32 ==> r == x
    ensures U32 <= x < 2 * U32 ==> r == x - U32
  {
    x % U32
  }

  /** The 32-bit number after `x`. */
  function Next32(x: nat): nat {
    if x + 1 == U32 then 0 else x + 1
  }

  lemma NextWraps(x: nat)
    requires x < U32
    ensures Next32(x) == Wrap32(x + 1)
  {
  }

  /** `x` kept in 64 bits. */
  function Wrap64(x: nat): (r: nat)
    ensures r < U64
    ensures x < U64 ==> r == x
  {
    x % U64
  }

  function Pow256(k: nat): nat {
    if k == 0 then 1 else 256 * Pow256(k - 1)
  }

  function BigEndian(n: nat, k: nat): (bytes: Bytes)
    ensures |bytes| == k
    decreases k
  {
    if k == 0 then [] else BigEndian(n / 256, k - 1) + [n % 256]
  }

  function FromBigEndian(bytes: Bytes): nat {
    if bytes == [] then 0 else 256 * FromBigEndian(bytes[..|bytes| - 1]) + bytes[|bytes| - 1]
  }

  lemma {:induction false} BigEndianRoundTrip(n: nat, k: nat)
    requires n < Pow256(k)
    ensures FromBigEndian(BigEndian(n, k)) == n
    decreases k
  {
    if k > 0 {
      BigEndianRoundTrip(n / 256, k - 1);
      var bytes := BigEndian(n, k);
      assert bytes[..k - 1] == BigEndian(n / 256, k - 1);
    }
  }

  /** The digit of `n` of weight 256^d. */
  function Digit(n: nat, d: nat): Byte
    decreases d
  {
    if d == 0 then n % 256 else Digit(n / 256, d - 1)
  }

  /** The bytes are the lowest digits of `n`, the highest of them first. */
  predicate HighFirst(bytes: Bytes, n: nat) {
    forall i :: 0 <= i < |bytes| ==> bytes[i] == Digit(n, |bytes| - 1 - i)
  }

  lemma {:induction false} BigEndianDigits(n: nat, k: nat)
    ensures HighFirst(BigEndian(n, k), n)
    decreases k
  {
    if k > 0 {
      var high := BigEndian(n / 256, k - 1);
      BigEndianDigits(n / 256, k - 1);
      forall i | 0 <= i < k ensures BigEndian(n, k)[i] == Digit(n, k - 1 - i) {
        assert i < k - 1 ==> high[i] == Digit(n / 256, k - 2 - i);
      }
    }
  }

  lemma {:induction false} FromBigEndianRoundTrip(bytes: Bytes)
    ensures BigEndian(FromBigEndian(bytes), |bytes|) == bytes
  {
    if bytes != [] {
      var n := |bytes| - 1;
      FromBigEndianRoundTrip(bytes[..n]);
      assert FromBigEndian(bytes) / 256 == FromBigEndian(bytes[..n]) && FromBigEndian(bytes) % 256 == bytes[n];
    }
  }

  lemma Pow256Of8()
    ensures Pow256(4) == U32 && Pow256(8) == U64
  {
    assert Pow256(2) == 0x1_0000;
    assert Pow256(4) == U32;
    assert Pow256(6) == 0x1_0000 * U32;
  }

  /** Element-wise order of strings: the first difference decides, and a proper prefix comes first. */
  predicate Less(a: seq<int>, b: seq<int>) {
    if b == [] then false
    else if a == [] then true
    else a[0] < b[0] || (a[0] == b[0] && Less(a[1..], b[1..]))
  }

  lemma {:induction false} LessIsTotal(a: seq<int>, b: seq<int>)
    requires a != b
    ensures Less(a, b) <==> !Less(b, a)
  {
    if a != [] && b != [] && a[0] == b[0] {
      assert a == [a[0]] + a[1..] && b == [b[0]] + b[1..];
      LessIsTotal(a[1..], b[1..]);
    }
  }

  lemma {:induction false} LessIsTransitive(a: seq<int>, b: seq<int>, c: seq<int>)
    requires Less(a, b) && Less(b, c)
    ensures Less(a, c)
  {
    if a != [] && a[0] == b[0] == c[0] {
      LessIsTransitive(a[1..], b[1..], c[1..]);
    }
  }

  /** A text is cut at the first `c`. */
  lemma CutFirst<T>(c: T, a: seq<T>, x: seq<T>, b: seq<T>, y: seq<T>)
    requires c !in a && c !in b && a + [c] + x == b + [c] + y
    ensures a == b && x == y
  {
    var s := a + [c] + x;
    assert s[|a|] == c && s[|b|] == c;
    assert forall i :: 0 <= i < |a| ==> s[i] == a[i] && s[i] in a;
    assert forall i :: 0 <= i < |b| ==> s[i] == b[i] && s[i] in b;
    assert |a| == |b|;
    assert a == s[..|a|] && b == s[..|b|] && x == s[|a| + 1..] && y == s[|b| + 1..];
  }

  /** Among the first `n` moments there is one that sets, and none after it clears. */
  ghost predicate HeldSince(n: nat, sets: nat -> bool, clears: nat -> bool) {
    exists k :: 0 <= k < n && sets(k) && forall j :: k < j < n ==> !clears(j)
  }

  lemma NextHeld(n: nat, sets: nat -> bool, clears: nat -> bool)
    ensures HeldSince(n + 1, sets, clears) <==> sets(n) || (HeldSince(n, sets, clears) && !clears(n))
  {
  }
}
