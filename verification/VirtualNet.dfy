/** IPv4 blocks of the virtual network: overlap detection and selection of `internal/vnet/network.go`, and the address
    allocator of `internal/server/handlers_lan.go`. Addresses are 32-bit numbers; masks act on their binary digits. */
module VirtualNet {
  import opened Basics
  import opened Bits

  /** `x` with its `k` lowest binary digits cleared. */
  function RoundDown(x: nat, k: nat): nat
    decreases k
  {
    if k == 0 then x else 2 * RoundDown(x / 2, k - 1)
  }

  /** A parsed block: `ip` has no digits below the prefix. */
  datatype Net = Net(ip: nat, ones: nat) {
    ghost predicate Valid() {
      ones <= 32 && ip < U32 && RoundDown(ip, 32 - ones) == ip
    }

    /** Number of host bits. */
    function Host(): nat
      requires ones <= 32
    {
      32 - ones
    }

    /** The netmask. */
    function Mask(): nat
      requires ones <= 32
    {
      if Pow2(Host()) <= U32 then U32 - Pow2(Host()) else 0
    }

    predicate Contains(x: nat)
      requires ones <= 32
    {
      And(x, Mask()) == And(ip, Mask())
    }

    /** The last address: every digit outside the mask set. */
    function Last(): nat
      requires ones <= 32
    {
      Or(ip, if U32 - 1 >= Mask() then U32 - 1 - Mask() else 0)
    }

    /** The block as a range of numbers. */
    ghost predicate InRange(x: nat)
      requires ones <= 32
    {
      ip <= x < ip + Pow2(Host())
    }
  }

  // ---------------------------------------------------------------------------------------------
  // Masks and ranges

  lemma {:induction false} RoundDownBounds(x: nat, k: nat)
    ensures RoundDown(x, k) <= x < RoundDown(x, k) + Pow2(k)
    decreases k
  {
    if k > 0 {
      RoundDownBounds(x / 2, k - 1);
    }
  }

  lemma {:induction false} RoundDownInRange(base: nat, x: nat, k: nat)
    requires RoundDown(base, k) == base && base <= x < base + Pow2(k)
    ensures RoundDown(x, k) == base
    decreases k
  {
    if k > 0 {
      RoundDownBounds(base / 2, k - 1);
      RoundDownInRange(base / 2, x / 2, k - 1);
    }
  }

  lemma {:induction false} RoundDownTwice(x: nat, j: nat, k: nat)
    requires j <= k
    ensures RoundDown(RoundDown(x, j), k) == RoundDown(x, k)
    decreases j
  {
    if j > 0 {
      RoundDownTwice(x / 2, j - 1, k - 1);
    }
  }

  lemma {:induction false} AndOnes(x: nat, w: nat)
    requires x < Pow2(w)
    ensures And(x, Pow2(w) - 1) == x
    decreases w
  {
    if w > 0 && x > 0 {
      PositivePow2(w - 1);
      AndOnes(x / 2, w - 1);
      assert (Pow2(w) - 1) / 2 == Pow2(w - 1) - 1;
    }
  }

  lemma AndDouble(x: nat, m: nat)
    ensures And(x, 2 * m) == 2 * And(x / 2, m)
  {
    if x == 0 || m == 0 {
      assert And(x / 2, m) == 0;
    }
  }

  lemma {:induction false} AndMask(x: nat, w: nat, k: nat)
    requires x < Pow2(w) && k <= w
    ensures Pow2(k) <= Pow2(w)
    ensures And(x, Pow2(w) - Pow2(k)) == RoundDown(x, k)
    decreases k
  {
    if k == 0 {
      PositivePow2(w);
      AndOnes(x, w);
    } else {
      AndMask(x / 2, w - 1, k - 1);
      var m := Pow2(w - 1) - Pow2(k - 1);
      assert Pow2(w) - Pow2(k) == 2 * m;
      AndDouble(x, m);
    }
  }

  lemma {:induction false} OrZero(a: nat)
    ensures Or(a, 0) == a
  {
    if a > 0 {
      OrZero(a / 2);
    }
  }

  lemma {:induction false} OrHost(base: nat, k: nat)
    requires RoundDown(base, k) == base
    ensures Pow2(k) >= 1 && Or(base, Pow2(k) - 1) == base + Pow2(k) - 1
    decreases k
  {
    PositivePow2(k);
    if k == 0 {
      OrZero(base);
    } else {
      PositivePow2(k - 1);
      RoundDownBounds(base / 2, k - 1);
      OrHost(base / 2, k - 1);
      assert (Pow2(k) - 1) / 2 == Pow2(k - 1) - 1;
    }
  }

  /** The mask test clears the host bits. */
  lemma MaskClearsHostBits(n: Net, x: nat)
    requires n.Valid() && x < U32
    ensures n.Contains(x) <==> RoundDown(x, n.Host()) == n.ip
  {
    HalfWordSize();
    AndMask(x, 32, n.Host());
    AndMask(n.ip, 32, n.Host());
  }

  /** The last address ends the range. */
  lemma LastOfRange(n: Net)
    requires n.Valid()
    ensures n.Last() == n.ip + Pow2(n.Host()) - 1
  {
    HalfWordSize();
    AndMask(n.ip, 32, n.Host());
    OrHost(n.ip, n.Host());
  }

  /** The mask test is the range test, and the last address ends the range. */
  lemma MaskIsRange(n: Net, x: nat)
    requires n.Valid() && x < U32
    ensures n.Contains(x) <==> n.InRange(x)
    ensures n.Last() == n.ip + Pow2(n.Host()) - 1
  {
    MaskClearsHostBits(n, x);
    LastOfRange(n);
    RoundDownBounds(x, n.Host());
    if n.InRange(x) {
      RoundDownInRange(n.ip, x, n.Host());
    }
  }

  // ---------------------------------------------------------------------------------------------
  // Overlap and selection

  predicate Overlap(a: Net, b: Net)
    requires a.ones <= 32 && b.ones <= 32
  {
    a.Contains(b.ip) || b.Contains(a.ip) || a.Last() == b.ip || b.Last() == a.ip
  }

  ghost predicate ShareAddress(a: Net, b: Net)
    requires a.ones <= 32 && b.ones <= 32
  {
    exists x: nat :: x < U32 && a.InRange(x) && b.InRange(x)
  }

  lemma StartsInRange(n: Net)
    requires n.Valid()
    ensures n.InRange(n.ip) && n.InRange(n.Last())
  {
    PositivePow2(n.Host());
    MaskIsRange(n, n.ip);
  }

  lemma SharedMeansNested(a: Net, b: Net, x: nat)
    requires a.Valid() && b.Valid() && x < U32 && a.InRange(x) && b.InRange(x) && a.Host() <= b.Host()
    ensures b.Contains(a.ip)
  {
    RoundDownInRange(a.ip, x, a.Host());
    RoundDownInRange(b.ip, x, b.Host());
    RoundDownTwice(x, a.Host(), b.Host());
    MaskClearsHostBits(b, a.ip);
  }

  /** The overlap test is exact. */
  lemma OverlapExactly(a: Net, b: Net)
    requires a.Valid() && b.Valid()
    ensures Overlap(a, b) <==> ShareAddress(a, b)
  {
    StartsInRange(a);
    StartsInRange(b);
    MaskIsRange(a, b.ip);
    MaskIsRange(b, a.ip);
    if ShareAddress(a, b) {
      var x: nat :| x < U32 && a.InRange(x) && b.InRange(x);
      if a.Host() <= b.Host() {
        SharedMeansNested(a, b, x);
      } else {
        SharedMeansNested(b, a, x);
      }
    }
    if Overlap(a, b) {
      assert (a.InRange(a.ip) && b.InRange(a.ip)) || (a.InRange(b.ip) && b.InRange(b.ip));
    }
  }

  /** A route whose text does not parse is None. */
  type Route = Option<Net>

  /** A route that counts: it parses and is not the default route. */
  predicate Counts(r: Route) {
    r.Some? && r.value.ones != 0
  }

  ghost predicate ValidRoutes(routes: seq<Route>) {
    forall r :: r in routes && r.Some? ==> r.value.Valid()
  }

  /** No counting route shares an address with the block. */
  ghost predicate Free(n: Net, routes: seq<Route>)
    requires n.Valid() && ValidRoutes(routes)
  {
    forall r :: r in routes && Counts(r) ==> !ShareAddress(n, r.value)
  }

  /** The first route in conflict with `target`, if any. */
  method DetectConflict(target: Net, routes: seq<Route>) returns (conflict: Option<nat>)
    requires target.Valid() && ValidRoutes(routes)
    ensures conflict.None? <==> Free(target, routes)
    ensures conflict.Some? ==>
      && conflict.value < |routes| && Counts(routes[conflict.value])
      && ShareAddress(target, routes[conflict.value].value)
      && Free(target, routes[..conflict.value])
  {
    for i := 0 to |routes|
      invariant forall j :: 0 <= j < i && Counts(routes[j]) ==> !ShareAddress(target, routes[j].value)
    {
      var route := routes[i];
      assert route in routes;
      if route.None? {
        continue;
      }
      if route.value.ones == 0 {
        continue;
      }
      OverlapExactly(target, route.value);
      if Overlap(target, route.value) {
        return Some(i);
      }
    }
    return None;
  }

  /** 172.16.i.0/24. */
  function Fallback(i: nat): Net {
    Net(256 * (172 * 0x1_0000 + 16 * 0x100 + i), 24)
  }

  lemma {:induction false} RoundDownDoubled(c: nat, k: nat)
    ensures RoundDown(Doubled(c, k), k) == Doubled(c, k)
    decreases k
  {
    if k > 0 {
      RoundDownDoubled(c, k - 1);
    }
  }

  lemma DoubledEight(c: nat)
    ensures Doubled(c, 8) == 256 * c
  {
    assert Doubled(c, 1) == 2 * Doubled(c, 0);
    assert Doubled(c, 2) == 2 * Doubled(c, 1);
    assert Doubled(c, 3) == 2 * Doubled(c, 2);
    assert Doubled(c, 4) == 2 * Doubled(c, 3);
    assert Doubled(c, 5) == 2 * Doubled(c, 4);
    assert Doubled(c, 6) == 2 * Doubled(c, 5);
    assert Doubled(c, 7) == 2 * Doubled(c, 6);
  }

  lemma FallbackIsValid(i: nat)
    requires i < 256
    ensures Fallback(i).Valid()
  {
    var c := 172 * 0x1_0000 + 16 * 0x100 + i;
    RoundDownDoubled(c, 8);
    DoubledEight(c);
  }

  datatype Choice = BadPreferred | Exhausted | Chosen(net: Net)

  function Candidate(preferred: Net, k: nat): Net {
    if k == 0 then preferred else Fallback(k + 9)
  }

  const CANDIDATES: nat := 246

  /** After the preferred block come 172.16.10.0/24 to 172.16.254.0/24, in order. */
  lemma CandidatesInOrder(preferred: Net, k: nat)
    requires 0 < k < CANDIDATES
    ensures BigEndian(Candidate(preferred, k).ip, 4) == [172, 16, k + 9, 0] && Candidate(preferred, k).ones == 24
    ensures 10 <= k + 9 <= 254
  {
    var base := Candidate(preferred, k).ip;
    assert base / 256 == 172 * 0x1_0000 + 16 * 0x100 + k + 9;
    assert base / 256 / 256 == 172 * 0x100 + 16;
    assert BigEndian(base / 256 / 256, 2) == [172, 16];
    assert BigEndian(base / 256, 3) == [172, 16, k + 9];
  }

  /** The first candidate that no counting route touches; failure only when every candidate is touched. */
  method NextAvailableCIDR(preferred: Route, routes: seq<Route>) returns (choice: Choice)
    requires (preferred.Some? ==> preferred.value.Valid()) && ValidRoutes(routes)
    ensures forall i :: 0 <= i < 256 ==> Fallback(i).Valid()
    ensures choice == BadPreferred <==> preferred.None?
    ensures choice == Exhausted ==> forall k :: 0 <= k < CANDIDATES ==> !Free(Candidate(preferred.value, k), routes)
    ensures choice.Chosen? ==>
      exists k :: 0 <= k < CANDIDATES && choice.net == Candidate(preferred.value, k) && Free(choice.net, routes) &&
                  forall j :: 0 <= j < k ==> !Free(Candidate(preferred.value, j), routes)
  {
    forall i | 0 <= i < 256 ensures Fallback(i).Valid() {
      FallbackIsValid(i);
    }
    if preferred.None? {
      return BadPreferred;
    }
    var candidates := [preferred.value];
    for i := 10 to 255
      invariant |candidates| == i - 9
      invariant forall k :: 0 <= k < |candidates| ==> candidates[k] == Candidate(preferred.value, k)
    {
      candidates := candidates + [Fallback(i)];
    }
    for k := 0 to |candidates|
      invariant forall j :: 0 <= j < k ==> !Free(Candidate(preferred.value, j), routes)
    {
      assert candidates[k] == Candidate(preferred.value, k);
      var conflict := DetectConflict(candidates[k], routes);
      if conflict.None? {
        return Chosen(candidates[k]);
      }
    }
    return Exhausted;
  }

  // ---------------------------------------------------------------------------------------------
  // Allocation

  /** The last byte plus one, carrying into the byte before it. */
  function Bumped(ip: Bytes): (out: Bytes)
    ensures |out| == |ip|
  {
    if ip == [] then []
    else
      var n := |ip| - 1;
      if ip[n] != 255 then ip[..n] + [ip[n] + 1] else Bumped(ip[..n]) + [0]
  }

  lemma {:induction false} BumpedValue(ip: Bytes)
    ensures FromBigEndian(ip) < Pow256(|ip|)
    ensures FromBigEndian(Bumped(ip)) == if FromBigEndian(ip) + 1 == Pow256(|ip|) then 0 else FromBigEndian(ip) + 1
  {
    if ip != [] {
      var n := |ip| - 1;
      BumpedValue(ip[..n]);
      assert Bumped(ip)[..n] == if ip[n] != 255 then ip[..n] else Bumped(ip[..n]);
    }
  }

  function Zeros(n: nat): (z: Bytes)
    ensures |z| == n
  {
    if n == 0 then [] else [0] + Zeros(n - 1)
  }

  /** The carry loop stands at byte `i`: the bytes after it have become zero. */
  ghost predicate Carried(ip: Bytes, out: Bytes, i: int) {
    && |ip| == |out| && -1 <= i < |ip|
    && out == ip[..i + 1] + Zeros(|ip| - 1 - i)
    && Bumped(ip) == Bumped(ip[..i + 1]) + Zeros(|ip| - 1 - i)
  }

  lemma CarryStarts(ip: Bytes)
    ensures Carried(ip, ip, |ip| - 1)
  {
    assert ip[..|ip|] == ip;
  }

  lemma CarryStops(ip: Bytes, out: Bytes, i: nat)
    requires Carried(ip, out, i) && ip[i] != 255
    ensures out[i] == ip[i] && out[i := ip[i] + 1] == Bumped(ip)
  {
    assert ip[..i + 1][..i] == ip[..i];
  }

  lemma CarryGoesOn(ip: Bytes, out: Bytes, i: nat)
    requires Carried(ip, out, i) && ip[i] == 255
    ensures out[i] == 255 && Carried(ip, out[i := 0], i - 1)
  {
    assert ip[..i + 1][..i] == ip[..i];
    var z := Zeros(|ip| - 1 - i);
    assert [0] + z == Zeros(|ip| - i);
    assert Bumped(ip[..i]) + [0] + z == Bumped(ip[..i]) + ([0] + z);
    assert out[i := 0] == ip[..i] + ([0] + z);
  }

  lemma BumpedIsNext(ip: Bytes)
    requires |ip| == 4
    ensures FromBigEndian(Bumped(ip)) == Next32(FromBigEndian(ip))
  {
    BumpedValue(ip);
    Pow256Of8();
  }

  /** The carry loop. */
  method Bump(ip: Bytes) returns (out: Bytes)
    ensures out == Bumped(ip)
  {
    out := ip;
    var i := |ip| - 1;
    CarryStarts(ip);
    while i >= 0
      invariant Carried(ip, out, i)
      decreases i
    {
      var b := (out[i] as int + 1) % 256;
      if ip[i] == 255 {
        CarryGoesOn(ip, out, i);
      } else {
        CarryStops(ip, out, i);
      }
      out := out[i := b];
      if b != 0 {
        return out;
      }
      i := i - 1;
    }
  }

  /** Byte increment with carry is addition of one modulo 2^32. */
  method NextIPv4(ip: Bytes) returns (out: Bytes)
    requires |ip| == 4
    ensures |out| == 4 && FromBigEndian(out) == Next32(FromBigEndian(ip))
  {
    BumpedIsNext(ip);
    out := Bump(ip);
  }

  lemma {:induction false} RoundUpFits(base: nat, k: nat, w: nat)
    requires RoundDown(base, k) == base && base < Pow2(w) && k <= w
    ensures base + Pow2(k) <= Pow2(w)
    decreases k
  {
    if k > 0 {
      RoundDownBounds(base / 2, k - 1);
      RoundUpFits(base / 2, k - 1, w - 1);
    }
  }

  /** Only the block of all addresses wraps around. */
  lemma BlockEnds(n: Net)
    requires n.Valid()
    ensures n.ip + Pow2(n.Host()) <= U32 && 1 <= Pow2(n.Host())
    ensures n.Last() == n.ip + Pow2(n.Host()) - 1
    ensures n.ones >= 1 ==> Pow2(n.Host()) < U32
    ensures n.ones == 0 ==> n.ip == 0 && n.Last() == U32 - 1
  {
    HalfWordSize();
    PositivePow2(n.Host());
    if n.ones >= 1 {
      Pow2Increasing(n.Host(), 32);
    }
    MaskIsRange(n, n.ip);
    RoundUpFits(n.ip, n.Host(), 32);
  }

  /** A block as the numbers from its first to its last address. */
  lemma BlockIsSpan(n: Net)
    requires n.Valid()
    ensures n.ip <= n.Last() < U32
    ensures forall x: nat :: x < U32 ==> (n.Contains(x) <==> n.ip <= x <= n.Last())
    ensures n.ones == 0 <==> n.ip == 0 && n.Last() == U32 - 1
  {
    BlockEnds(n);
    forall x: nat | x < U32 ensures n.Contains(x) <==> n.ip <= x <= n.Last() {
      MaskIsRange(n, x);
    }
  }

  predicate InsideUnused(first: nat, last: nat, used: set<nat>, x: nat) {
    first < x < last && x !in used
  }

  /** An address a device may get: inside the block, neither its first nor its last, and not in use. */
  ghost predicate Assignable(n: Net, used: set<nat>, x: nat)
    requires n.Valid()
  {
    InsideUnused(n.ip, n.Last(), used, x)
  }

  ghost predicate NothingAssignable(n: Net, used: set<nat>)
    requires n.Valid()
  {
    forall y: nat :: !Assignable(n, used, y)
  }

  /** The allocator's loop ends: the block is not the whole address space, or some address would do. */
  ghost predicate LoopEnds(n: Net, used: set<nat>)
    requires n.Valid()
  {
    n.ones >= 1 || exists y: nat :: y < n.Last() && y !in used
  }

  /** Otherwise every address passes the loop's guard and is skipped by its body. */
  lemma FullSpaceNeverEnds(n: Net, used: set<nat>, x: nat)
    requires n.Valid() && !LoopEnds(n, used) && x < U32
    ensures n.Contains(x) && (x == n.Last() || x in used)
  {
    BlockIsSpan(n);
  }

  /** The walk stands at `v`: above the first address with nothing to give before it, or past the end with nothing to
      give at all, or, when the block is the whole address space, back at the first address. */
  ghost predicate Walking(first: nat, last: nat, used: set<nat>, v: nat, wrapped: bool) {
    && v < U32
    && (first <= v <= last && !wrapped ==> v > first)
    && (wrapped ==> first == v == 0 && last == U32 - 1 && first !in used)
    && (v < first || last < v || wrapped ==> forall y: nat :: !InsideUnused(first, last, used, y))
    && (forall y: nat :: InsideUnused(first, last, used, y) ==> v <= y)
  }

  lemma WalkGoesOn(first: nat, last: nat, used: set<nat>, v: nat)
    requires first <= v <= last < U32 && (v == first || Walking(first, last, used, v, false))
    requires v == first || v == last || v in used
    requires first == 0 && last == U32 - 1 ==> exists y: nat :: y < last && y !in used
    ensures Walking(first, last, used, Next32(v), v == last == U32 - 1 && first == 0)
    ensures v < last ==> Next32(v) == v + 1
  {
    if first == 0 && last == U32 - 1 {
      var y: nat :| y < last && y !in used;
      assert y == first || InsideUnused(first, last, used, y);
    }
  }

  /** `r` is the lowest assignable address, or None exactly when there is none; a full block of all addresses gives
      away its first address, the network's own. */
  ghost predicate IsAllocation(n: Net, used: set<nat>, r: Option<nat>)
    requires n.Valid()
  {
    if !NothingAssignable(n, used) then
      r.Some? && Assignable(n, used, r.value) && forall y: nat :: Assignable(n, used, y) ==> r.value <= y
    else if n.ones >= 1 then r.None?
    else r == Some(n.ip) && n.ip !in used
  }

  lemma WalkFinds(n: Net, used: set<nat>, v: nat, wrapped: bool)
    requires n.Valid() && Walking(n.ip, n.Last(), used, v, wrapped)
    requires n.Contains(v) && v != n.Last() && v !in used
    ensures IsAllocation(n, used, Some(v))
  {
    BlockIsSpan(n);
    if wrapped {
      assert NothingAssignable(n, used);
    } else {
      assert Assignable(n, used, v);
    }
  }

  lemma WalkFails(n: Net, used: set<nat>, v: nat, wrapped: bool)
    requires n.Valid() && Walking(n.ip, n.Last(), used, v, wrapped) && !n.Contains(v)
    ensures IsAllocation(n, used, None)
  {
    BlockIsSpan(n);
    assert NothingAssignable(n, used);
  }

  method AddressBytes(x: nat) returns (ip: Bytes)
    requires x < U32
    ensures |ip| == 4 && FromBigEndian(ip) == x
  {
    Pow256Of8();
    BigEndianRoundTrip(x, 4);
    ip := BigEndian(x, 4);
  }

  method Allocate(n: Net, used: set<nat>) returns (r: Option<nat>)
    requires n.Valid() && LoopEnds(n, used)
    ensures IsAllocation(n, used, r)
  {
    BlockIsSpan(n);
    ghost var first, last := n.ip, n.Last();
    var ip := AddressBytes(n.ip);
    ip := NextIPv4(ip);
    WalkGoesOn(first, last, used, first);
    ghost var wrapped := false;
    while n.Contains(FromBigEndian(ip))
      invariant |ip| == 4 && Walking(first, last, used, FromBigEndian(ip), wrapped)
      decreases !wrapped, if first <= FromBigEndian(ip) <= last then last + 1 - FromBigEndian(ip) else 0
    {
      var x := FromBigEndian(ip);
      if x == n.Last() || x in used {
        WalkGoesOn(first, last, used, x);
        wrapped := x == last == U32 - 1 && first == 0;
        ip := NextIPv4(ip);
        continue;
      }
      WalkFinds(n, used, x, wrapped);
      return Some(x);
    }
    WalkFails(n, used, FromBigEndian(ip), wrapped);
    return None;
  }

  /** The stored addresses of one network. */
  class AddressBook {
    const network: Net
    var addresses: map<string, nat>

    ghost predicate Valid()
      reads this
    {
      && network.Valid()
      && (forall d, e :: d in addresses && e in addresses && d != e ==> addresses[d] != addresses[e])
      && (forall d :: d in addresses ==> network.ip <= addresses[d] < network.Last())
      && (network.ones >= 1 ==> forall d :: d in addresses ==> addresses[d] != network.ip)
    }

    constructor (network: Net)
      requires network.Valid()
      ensures Valid() && this.network == network && addresses == map[]
    {
      this.network := network;
      addresses := map[];
    }

    /** Devices keep pairwise distinct addresses; allocation fails exactly when the block is full. */
    method AllocateVirtualAddress(device: string) returns (r: Option<nat>)
      requires Valid() && LoopEnds(network, addresses.Values)
      modifies this
      ensures Valid()
      ensures IsAllocation(network, old(addresses).Values, r)
      ensures addresses == if r.Some? then old(addresses)[device := r.value] else old(addresses)
    {
      r := Allocate(network, addresses.Values);
      if r.Some? {
        BlockIsSpan(network);
        assert forall d :: d in addresses ==> addresses[d] in addresses.Values;
        addresses := addresses[device := r.value];
      }
    }
  }
}
