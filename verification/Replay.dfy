/** The 64-entry replay window of `internal/packet/session.go`.

    The concrete window is a 64-bit mask hanging below the highest sequence number presented so far.
    `Seen` is what the mask stands for: that highest number together with every number delivered. */
module Replay {
  import opened Bits

  const WINDOW_SIZE: nat := 64

  /** `highest` is the largest sequence number ever presented, authentic or not; `delivered` holds the
      numbers accepted and not rolled back, without forgetting the ones that left the window. */
  datatype Seen = Seen(highest: nat, delivered: set<nat>)

  const NOTHING_SEEN := Seen(0, {})

  predicate InWindow(s: Seen, n: nat) {
    n <= s.highest && s.highest - n < WINDOW_SIZE
  }

  predicate Fresh(s: Seen, n: nat) {
    n != 0 && n !in s.delivered && (n > s.highest || InWindow(s, n))
  }

  function Max(a: nat, b: nat): nat {
    if a > b then a else b
  }

  function Accepted(s: Seen, n: nat): Seen {
    if Fresh(s, n) then Seen(Max(n, s.highest), s.delivered + {n}) else s
  }

  function RolledBack(s: Seen, n: nat): Seen {
    if InWindow(s, n) then s.(delivered := s.delivered - {n}) else s
  }

  /** Bit `d` of the mask is set exactly when the number `max - d` exists and was delivered. */
  ghost predicate Represents(max: nat, bits: nat, s: Seen) {
    && s.highest == max
    && (forall n :: n in s.delivered ==> 0 < n <= max)
    && (forall d: nat :: d < WINDOW_SIZE ==> (Bit(bits, d) <==> d <= max && max - d in s.delivered))
  }

  lemma Advance(max: nat, bits: nat, s: Seen, n: nat)
    requires Represents(max, bits, s) && n > max
    ensures Fresh(s, n)
    ensures Represents(n, if n - max >= WINDOW_SIZE then 1 else Or(Shl(bits, n - max), 1), Accepted(s, n))
  {
    var bits' := if n - max >= WINDOW_SIZE then 1 else Or(Shl(bits, n - max), 1);
    forall d: nat | d < WINDOW_SIZE ensures Bit(bits', d) <==> d <= n && n - d in s.delivered + {n}
    {
      Pow2Bit(0, d);
      if n - max < WINDOW_SIZE {
        OrBit(Shl(bits, n - max), 1, d);
        ShlBit(bits, n - max, d);
      }
    }
  }

  lemma Mark(max: nat, bits: nat, s: Seen, n: nat)
    requires Represents(max, bits, s) && n != 0 && InWindow(s, n)
    ensures And(bits, Shl(1, max - n)) != 0 <==> n in s.delivered
    ensures n !in s.delivered ==> Represents(max, Or(bits, Shl(1, max - n)), Accepted(s, n))
  {
    ShlOne(max - n);
    AndPow2(bits, max - n);
    var bits' := Or(bits, Shl(1, max - n));
    forall d: nat | d < WINDOW_SIZE ensures Bit(bits', d) <==> d <= max && max - d in s.delivered + {n}
    {
      OrBit(bits, Shl(1, max - n), d);
      Pow2Bit(max - n, d);
    }
  }

  lemma Clear(max: nat, bits: nat, s: Seen, n: nat)
    requires Represents(max, bits, s) && InWindow(s, n)
    ensures Represents(max, AndNot(bits, Shl(1, max - n)), RolledBack(s, n))
  {
    ShlOne(max - n);
    var bits' := AndNot(bits, Shl(1, max - n));
    forall d: nat | d < WINDOW_SIZE ensures Bit(bits', d) <==> d <= max && max - d in s.delivered - {n}
    {
      AndNotBit(bits, Shl(1, max - n), d);
      Pow2Bit(max - n, d);
    }
  }

  class ReplayWindow {
    var max: nat
    var bits: nat
    ghost var seen: Seen

    ghost predicate Valid()
      reads this
    {
      Represents(max, bits, seen)
    }

    constructor ()
      ensures Valid() && seen == NOTHING_SEEN
    {
      max, bits, seen := 0, 0, NOTHING_SEEN;
      forall d: nat ensures !Bit(0, d) {
        ZeroBit(d);
      }
    }

    method Accept(n: nat) returns (ok: bool)
      requires Valid()
      modifies this
      ensures Valid()
      ensures ok <==> Fresh(old(seen), n)
      ensures seen == Accepted(old(seen), n)
    {
      if n == 0 {
        return false;
      }
      if max == 0 {
        forall d: nat ensures Bit(1, d) <==> d == 0 {
          Pow2Bit(0, d);
        }
        seen := Accepted(seen, n);
        max, bits := n, 1;
        return true;
      }
      if n > max {
        Advance(max, bits, seen, n);
        var shift := n - max;
        if shift >= WINDOW_SIZE {
          bits := 1;
        } else {
          bits := Or(Shl(bits, shift), 1);
        }
        seen := Accepted(seen, n);
        max := n;
        return true;
      }
      var delta := max - n;
      if delta >= WINDOW_SIZE {
        return false;
      }
      Mark(max, bits, seen, n);
      if And(bits, Shl(1, delta)) != 0 {
        return false;
      }
      bits := Or(bits, Shl(1, delta));
      seen := Accepted(seen, n);
      return true;
    }

    method Rollback(n: nat)
      requires Valid()
      modifies this
      ensures Valid()
      ensures seen == RolledBack(old(seen), n)
    {
      if max == n {
        Clear(max, bits, seen, n);
        ShlOne(0);
        bits := AndNot(bits, 1);
        seen := RolledBack(seen, n);
        return;
      }
      if max > n {
        var delta := max - n;
        if delta < WINDOW_SIZE {
          Clear(max, bits, seen, n);
          bits := AndNot(bits, Shl(1, delta));
          seen := RolledBack(seen, n);
        }
      }
    }
  }

  // ---------------------------------------------------------------------------------------------
  // Runs: anything at all presented to one window

  /** What a receiver can tell about a frame: it is malformed, or it carries a number and either authenticates or not.
      */
  datatype Arrival = Malformed | Numbered(number: nat, authentic: bool)

  datatype Verdict = Refused | Replayed | Delivered

  /** The window is consulted before authentication, and a frame that fails it still counts as presented. */
  function VerdictOf(s: Seen, x: Arrival): Verdict {
    match x
    case Malformed => Refused
    case Numbered(n, authentic) => if !Fresh(s, n) then Replayed else if authentic then Delivered else Refused
  }

  function Receive(s: Seen, x: Arrival): Seen {
    match x
    case Malformed => s
    case Numbered(n, authentic) =>
      if !Fresh(s, n) then s else Seen(Max(n, s.highest), if authentic then s.delivered + {n} else s.delivered)
  }

  function After(xs: seq<Arrival>): Seen {
    if xs == [] then NOTHING_SEEN else Receive(After(xs[..|xs| - 1]), xs[|xs| - 1])
  }

  function VerdictAt(xs: seq<Arrival>, j: nat): Verdict
    requires j < |xs|
  {
    VerdictOf(After(xs[..j]), xs[j])
  }

  /** The `j`-th arrival was delivered under number `n`. */
  predicate DeliveredAt(xs: seq<Arrival>, j: nat, n: nat)
    requires j < |xs|
  {
    VerdictAt(xs, j) == Delivered && xs[j].number == n
  }

  /** The largest number presented, authentic or not. */
  function HighestPresented(xs: seq<Arrival>): nat {
    if xs == [] then 0
    else
      var before := HighestPresented(xs[..|xs| - 1]);
      match xs[|xs| - 1]
      case Malformed => before
      case Numbered(n, _) => Max(n, before)
  }

  lemma {:induction false} RunHighest(xs: seq<Arrival>)
    ensures After(xs).highest == HighestPresented(xs)
    ensures forall n :: n in After(xs).delivered ==> n <= HighestPresented(xs)
  {
    if xs != [] {
      RunHighest(xs[..|xs| - 1]);
    }
  }

  /** The window's memory is the run's history: the numbers delivered by the first `k` arrivals. */
  lemma {:induction false} RunDelivered(xs: seq<Arrival>, k: nat, n: nat)
    requires k <= |xs|
    ensures n in After(xs[..k]).delivered <==> exists j :: 0 <= j < k && DeliveredAt(xs, j, n)
  {
    if k > 0 {
      RunDelivered(xs, k - 1, n);
      assert xs[..k][..k - 1] == xs[..k - 1];
      assert n in After(xs[..k]).delivered <==> n in After(xs[..k - 1]).delivered || DeliveredAt(xs, k - 1, n);
    }
  }

  /** The number has not been delivered by the first `j` arrivals, nor overtaken by 64 or more, and is not 0. */
  predicate IsNew(xs: seq<Arrival>, j: nat, n: nat)
    requires j <= |xs|
  {
    n != 0 && n + WINDOW_SIZE > HighestPresented(xs[..j]) && !(exists i :: 0 <= i < j && DeliveredAt(xs, i, n))
  }

  /** The verdict on any arrival: malformed ones are refused, numbers that are not new are replays, and of the others
      the authentic ones are delivered. */
  lemma VerdictExactly(xs: seq<Arrival>, j: nat)
    requires j < |xs|
    ensures VerdictAt(xs, j) ==
      if xs[j].Malformed? then Refused
      else if !IsNew(xs, j, xs[j].number) then Replayed
      else if xs[j].authentic then Delivered
      else Refused
  {
    if xs[j].Numbered? {
      RunHighest(xs[..j]);
      RunDelivered(xs, j, xs[j].number);
    }
  }

  /** Delivery, decided by the history of the run alone: an authentic arrival is delivered exactly when its number is
      not zero, is within the window of the highest number presented before, and was not delivered before. */
  lemma DeliveryExactly(xs: seq<Arrival>, j: nat)
    requires j < |xs| && xs[j].Numbered? && xs[j].authentic
    ensures
      var n := xs[j].number;
      VerdictAt(xs, j) ==
        if n != 0 && n + WINDOW_SIZE > HighestPresented(xs[..j]) && !(exists i :: 0 <= i < j && DeliveredAt(xs, i, n))
        then Delivered
        else Replayed
  {
    RunHighest(xs[..j]);
    RunDelivered(xs, j, xs[j].number);
  }

  /** No number is delivered twice, whatever is presented and whatever authenticates. */
  lemma AtMostOnce(xs: seq<Arrival>, i: nat, j: nat, n: nat)
    requires i < j < |xs| && DeliveredAt(xs, i, n)
    ensures !DeliveredAt(xs, j, n)
  {
    RunDelivered(xs, j, n);
  }

  // ---------------------------------------------------------------------------------------------
  // Honest arrivals in any order

  ghost predicate AllAuthentic(xs: seq<Arrival>) {
    forall j :: 0 <= j < |xs| ==> xs[j].Numbered? && xs[j].authentic
  }

  predicate FirstOfNumber(xs: seq<Arrival>, j: nat)
    requires j < |xs|
  {
    forall i :: 0 <= i < j ==> xs[i] != xs[j]
  }

  lemma {:induction false} HighestBelow(xs: seq<Arrival>, n: nat)
    requires AllAuthentic(xs) && n > 0
    ensures HighestPresented(xs) < n <==> forall i :: 0 <= i < |xs| ==> xs[i].number < n
  {
    if xs != [] {
      HighestBelow(xs[..|xs| - 1], n);
    }
  }

  /** Nothing presented before arrival `j` is 64 or more above it. */
  predicate InTime(xs: seq<Arrival>, j: nat)
    requires j < |xs| && forall i :: 0 <= i <= j ==> xs[i].Numbered?
  {
    forall i :: 0 <= i < j ==> xs[i].number < xs[j].number + WINDOW_SIZE
  }

  lemma {:induction false} FirstDelivery(xs: seq<Arrival>, i: nat, j: nat)
    requires AllAuthentic(xs) && i < j < |xs| && xs[i] == xs[j] && xs[j].number > 0 && InTime(xs, j)
    ensures exists k :: 0 <= k < j && DeliveredAt(xs, k, xs[j].number)
  {
    HighestBelow(xs[..i], xs[i].number + WINDOW_SIZE);
    DeliveryExactly(xs, i);
    assert DeliveredAt(xs, i, xs[j].number) || exists k :: 0 <= k < i && DeliveredAt(xs, k, xs[j].number);
  }

  /** If everything presented is authentic, in whatever order and however often, an arrival is delivered exactly when
      its number is not zero and it is the first of its number and in time. */
  lemma HonestDelivery(xs: seq<Arrival>, j: nat)
    requires AllAuthentic(xs) && j < |xs|
    ensures VerdictAt(xs, j) ==
      if xs[j].number != 0 && FirstOfNumber(xs, j) && InTime(xs, j) then Delivered else Replayed
  {
    var n := xs[j].number;
    HighestBelow(xs[..j], n + WINDOW_SIZE);
    DeliveryExactly(xs, j);
    if n != 0 && InTime(xs, j) {
      if !FirstOfNumber(xs, j) {
        var i :| 0 <= i < j && xs[i] == xs[j];
        FirstDelivery(xs, i, j);
      }
    }
  }

  // ---------------------------------------------------------------------------------------------
  // What one forged frame costs

  /** The run with a frame that does not authenticate presented before arrival `i`. */
  function WithForgery(xs: seq<Arrival>, i: nat, m: nat): seq<Arrival>
    requires i <= |xs|
  {
    xs[..i] + [Numbered(m, false)] + xs[i..]
  }

  /** `t` has seen one forged number `m` more than `s`. */
  ghost predicate Forged(s: Seen, t: Seen, m: nat) {
    && t.highest == Max(s.highest, m)
    && (forall n :: n in s.delivered && n + WINDOW_SIZE > m ==> n in t.delivered)
    && (forall n :: n in t.delivered ==> n in s.delivered)
  }

  lemma ForgeryStep(s: Seen, t: Seen, m: nat, x: Arrival)
    requires Forged(s, t, m)
    ensures Forged(Receive(s, x), Receive(t, x), m)
    ensures x.Numbered? && x.authentic ==>
      VerdictOf(t, x) == if x.number + WINDOW_SIZE <= m then Replayed else VerdictOf(s, x)
  {
  }

  lemma {:induction false} ForgeryState(xs: seq<Arrival>, i: nat, m: nat, j: nat)
    requires i <= j <= |xs|
    ensures Forged(After(xs[..j]), After(WithForgery(xs, i, m)[..j + 1]), m)
  {
    var ys := WithForgery(xs, i, m);
    if j == i {
      RunHighest(xs[..i]);
      assert ys[..i + 1][..i] == xs[..i] && ys[..i + 1][i] == Numbered(m, false);
    } else {
      ForgeryState(xs, i, m, j - 1);
      assert xs[..j][..j - 1] == xs[..j - 1] && ys[..j + 1][..j] == ys[..j];
      assert ys[..j + 1][j] == xs[j - 1] == xs[..j][j - 1];
      ForgeryStep(After(xs[..j - 1]), After(ys[..j]), m, xs[j - 1]);
    }
  }

  /** The window is moved before authentication and not moved back: a frame with a forged number `m` refuses, for the
      rest of the run, exactly the numbers 64 or more below `m`, and changes nothing else that is authentic. */
  lemma ForgeryCost(xs: seq<Arrival>, i: nat, m: nat, j: nat)
    requires i <= j < |xs| && xs[j].Numbered? && xs[j].authentic
    ensures VerdictAt(WithForgery(xs, i, m), j + 1) ==
      if xs[j].number + WINDOW_SIZE <= m then Replayed else VerdictAt(xs, j)
  {
    ForgeryState(xs, i, m, j);
    ForgeryStep(After(xs[..j]), After(WithForgery(xs, i, m)[..j + 1]), m, xs[j]);
  }
}
