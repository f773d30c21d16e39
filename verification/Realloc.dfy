/** `afl_realloc` of alloc-inl.h: a growing buffer that keeps its complete size in the
    eight bytes in front of its contents. */
module Realloc {

  import opened Bits
  import opened LittleEndian
  import opened PowerRounding
  import opened Words

  const HEADER: nat := 8
  const INITIAL_GROWTH_SIZE: nat := 64

  /** `size_needed` once the header is added, in 64-bit arithmetic. */
  function Total(request: nat): (t: nat)
    ensures t < U64
  {
    (request + HEADER) % U64
  }

  function NextSize(total: nat): (n: nat)
    requires total < U64
    ensures n < U64
  {
    if total < INITIAL_GROWTH_SIZE then INITIAL_GROWTH_SIZE
    else if NextPow2(total) == 0 then total else NextPow2(total)
  }

  lemma NextSizeFits(total: nat)
    requires total < U64
    ensures NextSize(total) >= total && NextSize(total) >= INITIAL_GROWTH_SIZE
  {
    if total >= INITIAL_GROWTH_SIZE { Unwrapped(total); }
  }

  // ----- sizes over a run

  /** The complete size, 0 for NULL, and the bytes the growths have moved. */
  datatype Sizes = Sizes(size: nat, moved: nat)

  function Step(s: Sizes, request: nat, granted: bool): (t: Sizes) {
    var total := Total(request);
    if s.size >= total then s
    else if granted then Sizes(NextSize(total), s.moved + s.size)
    else Sizes(0, s.moved)
  }

  /** From NULL through calls that all succeed. */
  function After(requests: seq<nat>): (s: Sizes) {
    if requests == [] then Sizes(0, 0)
    else Step(After(requests[..|requests| - 1]), requests[|requests| - 1], true)
  }

  /** A growth to this request lands on a power of two. */
  ghost predicate Rounds(request: nat) {
    request + HEADER < INITIAL_GROWTH_SIZE
    || (request + HEADER <= Pow2(63) && NoGap(request + HEADER - 1))
  }

  lemma SmallRounds(request: nat)
    requires request + HEADER <= Pow2(32)
    ensures Rounds(request)
  {
    hide Pow2, NoGap;
    SmallHasNoGap(request + HEADER - 1);
    Pow2Grows(32, 63);
  }

  lemma GrowsToPower(request: nat)
    requires Rounds(request)
    ensures Total(request) == request + HEADER
    ensures var n := NextSize(Total(request));
      PowerOfTwo(n) && n >= INITIAL_GROWTH_SIZE && (n == INITIAL_GROWTH_SIZE || n < 2 * Total(request))
  {
    hide NextPow2, NoGap, IsNextPow2, Pow2;
    WordIsPower();
    SixtyFour();
    Pow2Grows(63, 64);
    NextSizeFits(Total(request));
    if Total(request) >= INITIAL_GROWTH_SIZE {
      Rounded(Total(request));
    }
  }

  lemma SixtyFour()
    ensures PowerOfTwo(INITIAL_GROWTH_SIZE)
  {
    assert Pow2(2) == 4;
    Pow2Sum(2, 2);
    Pow2Sum(2, 4);
  }

  lemma Rounded(total: nat)
    requires 1 <= total <= Pow2(63) && total < U64 && NoGap(total - 1)
    ensures NextPow2(total) > 0 && PowerOfTwo(NextPow2(total)) && NextPow2(total) < 2 * total
  {
    NextPow2Exact(total);
  }

  lemma PowersDouble(a: nat, b: nat)
    requires PowerOfTwo(a) && PowerOfTwo(b) && a < b
    ensures 2 * a <= b
  {
    var i: nat :| a == Pow2(i);
    var j: nat :| b == Pow2(j);
    if i < j { Pow2Grows(i, j); } else { Pow2Grows(j, i); }
  }

  /** What every run of rounded requests keeps. */
  ghost predicate Amortized(requests: seq<nat>, s: Sizes) {
    if requests == [] then s == Sizes(0, 0)
    else
      && PowerOfTwo(s.size) && s.size >= INITIAL_GROWTH_SIZE
      && (forall i :: 0 <= i < |requests| ==> requests[i] + HEADER <= s.size)
      && (s.size == INITIAL_GROWTH_SIZE || exists i :: 0 <= i < |requests| && s.size < 2 * (requests[i] + HEADER))
      && s.moved < s.size
  }

  lemma StepAmortized(requests: seq<nat>, s: Sizes, request: nat)
    requires Amortized(requests, s) && Rounds(request)
    ensures Amortized(requests + [request], Step(s, request, true))
  {
    hide Rounds, PowerOfTwo;
    var t, all := Step(s, request, true), requests + [request];
    GrowsToPower(request);
    NextSizeFits(Total(request));
    if requests != [] && t.size > s.size { PowersDouble(s.size, t.size); }
    assert all[|requests|] == request;
    forall i | 0 <= i < |all| ensures all[i] + HEADER <= t.size {
      if i < |requests| { assert all[i] == requests[i]; }
    }
    if t == s && s.size != INITIAL_GROWTH_SIZE {
      var i :| 0 <= i < |requests| && s.size < 2 * (requests[i] + HEADER);
      assert all[i] == requests[i];
    }
  }

  /** Growth is amortised: over any run of rounded requests, in particular of requests
      up to 2^32 bytes in all, less is moved than the buffer ends up holding. */
  lemma {:induction false} RunAmortized(requests: seq<nat>)
    requires forall i :: 0 <= i < |requests| ==> Rounds(requests[i])
    ensures Amortized(requests, After(requests))
    decreases |requests|
  {
    hide Rounds, Step, Amortized;
    if requests == [] {
      NothingAmortized();
    } else {
      var n := |requests| - 1;
      RunAmortized(requests[..n]);
      StepAmortized(requests[..n], After(requests[..n]), requests[n]);
      assert requests[..n] + [requests[n]] == requests;
    }
  }

  lemma NothingAmortized()
    ensures Amortized([], Sizes(0, 0))
  {
  }

  /** Three requests around 2^k that all grow the buffer, but never double it. */
  function Crawl(k: nat): (requests: seq<nat>)
    requires k >= 32
  {
    Pow2Grows(4, k);
    [Pow2(k) + 1 - HEADER, Pow2(k + 1) - HEADER, Pow2(k + 1) + 1 - HEADER]
  }

  /** Past 2^32, at every power of two, more can be moved than the buffer holds. */
  lemma AmortizationFails(k: nat)
    requires 32 <= k < 62
    ensures After(Crawl(k)).moved > After(Crawl(k)).size
  {
    hide NextPow2, Pow2, After, Step;
    CrawlSizes(k);
    FirstSizes();
    var a, b, c := Pow2(k) + 1, Pow2(k + 1), Pow2(k + 1) + 1;
    AfterSnoc([], a - HEADER);
    GrowTo(Sizes(0, 0), a);
    AfterSnoc([a - HEADER], b - HEADER);
    GrowTo(Sizes(NextPow2(a), 0), b);
    AfterSnoc([a - HEADER, b - HEADER], c - HEADER);
    GrowTo(Sizes(b, NextPow2(a)), c);
    assert [] + [a - HEADER] == [a - HEADER];
    assert [a - HEADER] + [b - HEADER] == [a - HEADER, b - HEADER];
    assert Crawl(k) == [a - HEADER, b - HEADER] + [c - HEADER];
  }

  lemma FirstSizes()
    ensures After([]) == Sizes(0, 0)
  {
  }

  lemma AfterSnoc(requests: seq<nat>, request: nat)
    ensures After(requests + [request]) == Step(After(requests), request, true)
  {
    assert (requests + [request])[..|requests|] == requests;
  }

  lemma GrowTo(s: Sizes, total: nat)
    requires s.size < total < U64 && INITIAL_GROWTH_SIZE <= total && NextPow2(total) > 0
    ensures Step(s, total - HEADER, true) == Sizes(NextPow2(total), s.moved + s.size)
  {
    hide NextPow2;
  }

  lemma CrawlSizes(k: nat)
    requires 32 <= k < 62
    ensures INITIAL_GROWTH_SIZE <= Pow2(k) + 1 < Pow2(k + 1) + 1 < U64
    ensures NextPow2(Pow2(k + 1)) == Pow2(k + 1)
    ensures Pow2(k) < NextPow2(Pow2(k) + 1) < Pow2(k + 1)
    ensures Pow2(k + 1) < NextPow2(Pow2(k + 1) + 1) < NextPow2(Pow2(k) + 1) + Pow2(k + 1)
  {
    hide NextPow2, PowerOfTwo;
    GapAbove(k);
    GapAbove(k + 1);
    PowerStays(k + 1);
    Pow2Grows(1, k - 31);
    Pow2Grows(k - 30, k);
    WordIsPower();
    Pow2Grows(32, k);
  }

  lemma PowerStays(k: nat)
    requires k < 64
    ensures Pow2(k) < U64 && NextPow2(Pow2(k)) == Pow2(k)
  {
    hide Smear, NoGap, Len, Pow2;
    WordIsPower();
    Pow2Grows(k, 64);
    AllOnes(k, Pow2(k) - 1);
    Unwrapped(Pow2(k));
    SmearFills(Pow2(k) - 1);
  }

  lemma AllOnes(k: nat, x: nat)
    requires x == Pow2(k) - 1
    ensures Len(x) == k && NoGap(x)
  {
    LenAtMost(x, k);
    if k > 0 { LenAtMost(x, k - 1); }
    forall j: nat | j < k ensures Any(x, j, 32) {
      OnesBit(k, j);
    }
  }

  // ----- exactly how far

  /** Every run of requests up to `bound` bytes in all is amortised as it should be. */
  ghost predicate AllAmortized(bound: nat) {
    forall requests: seq<nat> :: Within(requests, bound) ==> Amortized(requests, After(requests))
  }

  /** Every such run moves less than the buffer ends up holding. */
  ghost predicate AllMoveLess(bound: nat) {
    forall requests: seq<nat> :: Within(requests, bound) && requests != [] ==> After(requests).moved < After(requests).size
  }

  ghost predicate Within(requests: seq<nat>, bound: nat) {
    forall i :: 0 <= i < |requests| ==> requests[i] + HEADER <= bound
  }

  /** All of it holds if and only if no request passes 2^32 bytes. */
  lemma AllAmortizedIff(bound: nat)
    ensures AllAmortized(bound) <==> bound <= Pow2(32)
  {
    hide Pow2, After, Rounds;
    if bound <= Pow2(32) {
      forall requests: seq<nat> | Within(requests, bound) ensures Amortized(requests, After(requests)) {
        forall i | 0 <= i < |requests| ensures Rounds(requests[i]) { SmallRounds(requests[i]); }
        RunAmortized(requests);
      }
    } else {
      OddSize();
      assert Within([Pow2(32) + 1 - HEADER], bound);
    }
  }

  /** One request past 2^32 gives a size that is no power of two. */
  lemma OddSize()
    ensures Pow2(32) + 1 >= HEADER && !PowerOfTwo(After([Pow2(32) + 1 - HEADER]).size)
  {
    hide Pow2, NextPow2, Step, After, PowerOfTwo;
    var a := Pow2(32) + 1;
    CrawlSizes(32);
    GapAbove(32);
    FirstSizes();
    AfterSnoc([], a - HEADER);
    GrowTo(Sizes(0, 0), a);
    assert [] + [a - HEADER] == [a - HEADER];
  }

  /** The size after a run of requests below 2^33 bytes, and what was moved. */
  ghost predicate Settled(s: Sizes) {
    || s == Sizes(0, 0)
    || (PowerOfTwo(s.size) && s.size <= Pow2(33) && s.moved + INITIAL_GROWTH_SIZE <= s.size)
    || (s.size == Pow2(33) - 1 && s.moved < s.size)
  }

  /** Above 2^32, one size is odd and all others round. */
  lemma MiddleSizes(total: nat)
    requires Pow2(32) < total < Pow2(33)
    ensures total < U64 && NextPow2(total) == if total == Pow2(32) + 1 then Pow2(33) - 1 else Pow2(33)
  {
    hide Pow2, NextPow2, NoGap;
    WordIsPower();
    Pow2Grows(33, 63);
    Pow2Grows(33, 64);
    if total == Pow2(32) + 1 {
      GapAbove(32);
      FirstPower();
    } else {
      MiddleHasNoGap(total - 1);
      NextPow2Exact(total);
      ExactPower(total, 32);
    }
  }

  lemma ExactPower(total: nat, k: nat)
    requires Pow2(k) < total <= Pow2(k + 1) && total < U64 && IsNextPow2(total, NextPow2(total))
    ensures NextPow2(total) == Pow2(k + 1)
  {
    hide NextPow2;
    IsLeast(total, NextPow2(total), k + 1);
    var m: nat :| NextPow2(total) == Pow2(m);
    if m <= k { Pow2Grows(m, k); } else { Pow2Grows(k + 1, m); }
  }

  lemma MiddleHasNoGap(x: nat)
    requires Pow2(32) < x < Pow2(33)
    ensures NoGap(x)
  {
    hide Pow2, Bit, Len, Any;
    LenAtMost(x, 33);
    LenAtMost(x, 32);
    LenBounds(x);
    forall j: nat | j < Len(x) ensures Any(x, j, 32) {
      if j > 0 {
        AnyHas(x, j, 32, 32);
      } else {
        LowBitSet(x);
      }
    }
  }

  lemma LowBitSet(x: nat)
    requires Pow2(32) < x && Len(x) == 33 && Bit(x, 32)
    ensures Any(x, 0, 32)
  {
    hide Pow2, Bit, Len, Any;
    if !Any(x, 0, 32) {
      assert Pow2(33) - Pow2(32) == Pow2(32) by { Pow2Step(32); }
      forall j: nat ensures Bit(x, j) <==> Bit(Pow2(32), j) {
        RangeBit(32, 33, j);
        if j > 32 { NoBitPastLen(x, j); } else if j < 32 && Bit(x, j) { AnyHas(x, 0, 32, j); }
      }
      SameBits(x, Pow2(32));
    }
  }

  lemma FirstPower()
    ensures Pow2(1) == 2
  {
  }

  lemma Pow2Step(n: nat)
    ensures Pow2(n + 1) == 2 * Pow2(n)
  {
  }

  lemma StepSettles(s: Sizes, request: nat)
    requires Settled(s) && request + HEADER < Pow2(33)
    ensures Settled(Step(s, request, true)) && Step(s, request, true).size > 0
  {
    hide Pow2, NextPow2, PowerOfTwo, NextSize;
    var total := request + HEADER;
    WordIsPower();
    Pow2Step(32);
    assert Total(request) == total;
    NextSizeFits(total);
    if s.size >= total {
    } else if total <= Pow2(32) {
      SmallRounds(request);
      GrowsToPower(request);
      SmallNext(total);
      if s.size > 0 { PowersDouble(s.size, NextSize(total)); }
    } else {
      MiddleSizes(total);
      MiddleNext(total);
      PowerIsPower();
      if s.size > Pow2(32) { PowersDouble(Pow2(32), s.size); }
    }
  }

  lemma SmallNext(total: nat)
    requires total <= Pow2(32) && total < U64 && PowerOfTwo(NextSize(total))
    requires NextSize(total) == INITIAL_GROWTH_SIZE || NextSize(total) < 2 * total
    ensures NextSize(total) <= Pow2(32)
  {
    hide Pow2, NextSize, PowerOfTwo;
    WordIsPower();
    PowerIsPower();
    if NextSize(total) > Pow2(32) { PowersDouble(Pow2(32), NextSize(total)); }
  }

  lemma MiddleNext(total: nat)
    requires Pow2(32) < total < U64 && NextPow2(total) > 0
    ensures NextSize(total) == NextPow2(total)
  {
    WordIsPower();
  }

  lemma PowerIsPower()
    ensures PowerOfTwo(Pow2(32)) && PowerOfTwo(Pow2(33))
  {
  }

  lemma {:induction false} RunSettles(requests: seq<nat>)
    requires Within(requests, Pow2(33) - 1)
    ensures Settled(After(requests)) && (requests != [] ==> After(requests).size > 0)
    decreases |requests|
  {
    hide Settled, Step, Pow2;
    if requests == [] {
      NothingSettled();
    } else {
      var n := |requests| - 1;
      RunSettles(requests[..n]);
      StepSettles(After(requests[..n]), requests[n]);
    }
  }

  lemma NothingSettled()
    ensures Settled(Sizes(0, 0))
  {
  }

  /** Less is moved than the buffer holds, over all runs, if and only if no request
      reaches 2^33 bytes. */
  lemma AllMoveLessIff(bound: nat)
    ensures AllMoveLess(bound) <==> bound < Pow2(33)
  {
    hide After, Pow2;
    if bound < Pow2(33) {
      forall requests: seq<nat> | Within(requests, bound) && requests != []
        ensures After(requests).moved < After(requests).size
      {
        RunSettles(requests);
      }
    } else {
      Overmoved();
    }
  }

  /** 2^32, one more, and 2^33. */
  lemma Overmoved()
    ensures exists requests: seq<nat> ::
              && Within(requests, Pow2(33)) && requests != []
              && After(requests).moved >= After(requests).size
  {
    hide NextPow2, Pow2, After, Step, PowerOfTwo;
    WordIsPower();
    CrawlSizes(32);
    GapAbove(32);
    PowerStays(32);
    Pow2Step(32);
    FirstPower();
    FirstSizes();
    var a, b, c := Pow2(32), Pow2(32) + 1, Pow2(33);
    AfterSnoc([], a - HEADER);
    GrowTo(Sizes(0, 0), a);
    AfterSnoc([a - HEADER], b - HEADER);
    GrowTo(Sizes(a, 0), b);
    AfterSnoc([a - HEADER, b - HEADER], c - HEADER);
    GrowTo(Sizes(NextPow2(b), a), c);
    assert [] + [a - HEADER] == [a - HEADER];
    assert [a - HEADER] + [b - HEADER] == [a - HEADER, b - HEADER];
    var all := [a - HEADER, b - HEADER] + [c - HEADER];
    assert Within(all, Pow2(33));
  }

  /** A request for nothing is granted like any other, whatever the comment says. */
  lemma ZeroRequestAllocates()
    ensures Step(Sizes(0, 0), 0, true) == Sizes(INITIAL_GROWTH_SIZE, 0)
  {
  }

  // ----- the buffer

  class Buffer {
    /** Header and contents; empty is NULL. */
    var block: seq<Byte>
    ghost var moved: nat

    ghost predicate Valid()
      reads this
    {
      block == [] || (HEADER <= |block| < U64 && Decode(block[..HEADER]) == |block|)
    }

    ghost function Payload(): (p: seq<Byte>)
      reads this
    {
      if |block| < HEADER then [] else block[HEADER..]
    }

    constructor ()
      ensures Valid() && block == [] && moved == 0
    {
      block, moved := [], 0;
    }

    /** One call; `granted` is whether `realloc` finds the memory. */
    method Realloc(request: nat, granted: bool) returns (ok: bool)
      requires Valid() && request < U64
      modifies this
      ensures Valid() && (ok <==> block != [])
      ensures !ok <==> (old(|block|) < Total(request) && !granted) || (old(block) == [] && Total(request) == 0)
      ensures Sizes(|block|, moved) == Step(Sizes(old(|block|), old(moved)), request, granted)
      ensures ok ==> (request <= |Payload()| <==> request + HEADER < U64)
      ensures ok ==> old(Payload()) <= Payload()
      ensures ok ==> forall i :: old(|Payload()|) <= i < |Payload()| ==> Payload()[i] == 0
    {
      hide Decode, NextSize;
      var current := 0;
      if block != [] { current := Decode(block[..HEADER]); }
      var total := Total(request);
      if current >= total { return block != []; }
      var next := NextSize(total);
      NextSizeFits(total);
      if !granted {
        block := [];
        return false;
      }
      moved := moved + current;
      block := Enlarge(block, current, next);
      return true;
    }
  }

  /** Move the block, clear what is new, and write the new size in front. */
  method Enlarge(block: seq<Byte>, current: nat, next: nat) returns (r: seq<Byte>)
    requires current == |block| < next < U64 && HEADER <= next
    requires block == [] || HEADER <= |block|
    ensures |r| == next && Decode(r[..HEADER]) == next
    ensures block != [] ==> block[HEADER..] <= r[HEADER..]
    ensures forall i :: HEADER <= i < next && current <= i ==> r[i] == 0
  {
    hide Decode, Encode, Power;
    r := Regrow(block, next);
    r := r[..current] + Zeros(next - current);
    WordIsPower256();
    DecodeEncode(next, HEADER);
    r := Encode(next, HEADER) + r[HEADER..];
    assert r[..HEADER] == Encode(next, HEADER);
  }

  /** `realloc`: the old bytes, and then whatever was there. */
  method Regrow(old_block: seq<Byte>, n: nat) returns (r: seq<Byte>)
    requires |old_block| <= n
    ensures |r| == n && r[..|old_block|] == old_block
  {
    var rest: seq<Byte> :| |rest| == n - |old_block| by { assert |Zeros(n - |old_block|)| == n - |old_block|; }
    r := old_block + rest;
  }

  function Zeros(n: nat): (z: seq<Byte>)
    ensures |z| == n && forall i :: 0 <= i < n ==> z[i] == 0
  {
    seq(n, i => 0)
  }

  lemma WordIsPower256()
    ensures Power(HEADER) == U64
  {
  }
}
