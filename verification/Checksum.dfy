/** The Internet checksum of `internal/packet/router.go` (section 1 of RFC 1071). */
module Checksum {
  import opened Basics

  /** A big-endian 16-bit word. */
  function Word(hi: Byte, lo: Byte): (w: nat)
    ensures w < 0x1_0000
  {
    256 * (hi as int) + lo
  }

  /** The sum of the big-endian 16-bit words; a last odd byte is the high half of a word. */
  function WordSum(data: Bytes): nat {
    if |data| == 0 then 0
    else if |data| == 1 then Word(data[0], 0)
    else Word(data[0], data[1]) + WordSum(data[2..])
  }

  /** End-around carry, until the value fits in 16 bits. */
  function Fold(n: nat): (r: nat)
    ensures r < 0x1_0000
  {
    if n < 0x1_0000 then n else Fold(n % 0x1_0000 + n / 0x1_0000)
  }

  function InternetChecksum(data: Bytes): nat {
    0xffff - Fold(WordSum(data))
  }

  lemma {:induction false} CarryKeepsResidue(q: nat, r: nat)
    ensures (0x1_0000 * q + r) % 0xffff == (r + q) % 0xffff
  {
    if q > 0 {
      CarryKeepsResidue(q - 1, r + 1);
      assert 0x1_0000 * q + r == 0x1_0000 * (q - 1) + (r + 1) + 0xffff;
    }
  }

  /** Folding is reduction modulo 2^16 - 1 that keeps zero apart from the other multiples. */
  lemma {:induction false} FoldIsModular(n: nat)
    ensures Fold(n) % 0xffff == n % 0xffff
    ensures Fold(n) == 0 <==> n == 0
  {
    if n >= 0x1_0000 {
      FoldIsModular(n % 0x1_0000 + n / 0x1_0000);
      CarryKeepsResidue(n / 0x1_0000, n % 0x1_0000);
    }
  }

  lemma {:induction false} WordSumBound(data: Bytes)
    ensures 2 * WordSum(data) <= 0xffff * (|data| + 1)
  {
    if |data| >= 2 {
      WordSumBound(data[2..]);
    }
  }

  /** `data` with the 16-bit word at `k` replaced. */
  function StoreWord(data: Bytes, k: nat, w: nat): Bytes
    requires k + 1 < |data| && w < 0x1_0000
  {
    data[k := w / 256][k + 1 := w % 256]
  }

  lemma {:induction false} WordSumStore(data: Bytes, k: nat, c: nat)
    requires k % 2 == 0 && k + 1 < |data| && data[k] == data[k + 1] == 0 && c < 0x1_0000
    ensures WordSum(StoreWord(data, k, c)) == WordSum(data) + c
  {
    var data' := StoreWord(data, k, c);
    if k == 0 {
      assert data'[2..] == data[2..];
    } else {
      WordSumStore(data[2..], k - 2, c);
      assert data'[2..] == StoreWord(data[2..], k - 2, c);
    }
  }

  lemma MultipleFoldsToOnes(s: nat, c: nat, f: nat, g: nat)
    requires f % 0xffff == s % 0xffff && f < 0x1_0000 && c == 0xffff - f
    requires g < 0x1_0000 && g % 0xffff == (s + c) % 0xffff && (g == 0 <==> s + c == 0) && (f == 0 <==> s == 0)
    ensures g == 0xffff
  {
  }

  /** Storing the checksum of the data, computed with its field cleared, makes the whole verify. */
  lemma StoredChecksumVerifies(data: Bytes, k: nat)
    requires k % 2 == 0 && k + 1 < |data| && data[k] == data[k + 1] == 0
    ensures InternetChecksum(StoreWord(data, k, InternetChecksum(data))) == 0
  {
    var s := WordSum(data);
    FoldIsModular(s);
    var c := InternetChecksum(data);
    WordSumStore(data, k, c);
    FoldIsModular(s + c);
    MultipleFoldsToOnes(s, c, Fold(s), Fold(s + c));
  }

  /** An even-length prefix adds to the sum of what follows. */
  lemma {:induction false} WordSumConcat(a: Bytes, b: Bytes)
    requires |a| % 2 == 0
    ensures WordSum(a + b) == WordSum(a) + WordSum(b)
  {
    if a == [] {
      assert a + b == b;
    } else {
      WordSumConcat(a[2..], b);
      assert (a + b)[2..] == a[2..] + b;
    }
  }

  /** Adding a word to a wrapped accumulator. */
  lemma WrapAround(sum: nat, w: nat, rest: nat, total: nat)
    requires Wrap32(sum + (w + rest)) == Wrap32(total)
    ensures Wrap32(Wrap32(sum + w) + rest) == Wrap32(total)
  {
  }

  lemma WordSumStep(rest: Bytes)
    requires |rest| >= 2
    ensures WordSum(rest) == Word(rest[0], rest[1]) + WordSum(rest[2..])
  {
  }

  /** The source's first loop, with its 32-bit accumulator. */
  method SumWords(data: Bytes) returns (sum: nat)
    ensures sum == Wrap32(WordSum(data))
  {
    sum := 0;
    var rest := data;
    ghost var total := WordSum(data);
    while |rest| >= 2
      invariant sum < U32 && Wrap32(sum + WordSum(rest)) == Wrap32(total)
      decreases |rest|
    {
      WordSumStep(rest);
      WrapAround(sum, Word(rest[0], rest[1]), WordSum(rest[2..]), total);
      sum := Wrap32(sum + Word(rest[0], rest[1]));
      rest := rest[2..];
    }
    if |rest| > 0 {
      WrapAround(sum, Word(rest[0], 0), 0, total);
      sum := Wrap32(sum + Word(rest[0], 0));
    }
  }

  method FoldCarries(start: nat) returns (sum: nat)
    ensures sum == Fold(start)
  {
    sum := start;
    while sum / 0x1_0000 != 0
      invariant Fold(sum) == Fold(start)
      decreases sum
    {
      sum := sum % 0x1_0000 + sum / 0x1_0000;
    }
  }

  /** The accumulator does not overflow on anything up to 131073 bytes, more than a packet with its pseudo-header. */
  method ComputeChecksum(data: Bytes) returns (c: nat)
    ensures c == 0xffff - Fold(Wrap32(WordSum(data)))
    ensures |data| <= 131073 ==> c == InternetChecksum(data)
  {
    var sum := SumWords(data);
    var folded := FoldCarries(sum);
    WordSumBound(data);
    c := 0xffff - folded;
  }
}
