/** Choosing the next free subnet, and draining a whole pool by doing so repeatedly. */
module AllocPool {
  import opened Basics
  import opened Powers
  import opened Alloc
  import opened AllocLaws
  import opened Ascending

  /** What a caller needs to build a tunnel from one number. */
  datatype Allocation = Allocation(number: Int64, subnet: Prefix, scheme: Scheme, a: Addr, b: Addr)

  /** The allocation for a number the operator pinned. */
  function At(pool: Prefix, prefixLen: int, number: Int64): Result<Allocation, AllocError>
    requires pool.IsValid()
  {
    match SubnetForNumber(pool, prefixLen, number)
    case Err(e) => Err(e)
    case Ok(subnet) =>
      match SlotAddresses(subnet)
      case Err(e) => Err(e)
      case Ok((a, b)) => Ok(Allocation(number, subnet, SchemeFor(pool, subnet.bits), a, b))
  }

  predicate FreeAt(pool: Prefix, prefixLen: int, used: set<Addr>, n: Int64)
    requires pool.IsValid()
  {
    var r := At(pool, prefixLen, n);
    r.Ok? && r.value.a !in used && r.value.b !in used
  }

  function Start(pool: Prefix, prefixLen: int): Int64 {
    if SchemeFor(pool, prefixLen) == Octet then 1 else 0
  }

  /** Where numbering starts: at 1 for IPv4 pools wider than a /24, cut no wider than a /24. */
  function First(pool: Prefix, prefixLen: int): int {
    if pool.addr.is4 && pool.bits < 24 <= prefixLen then 1 else 0
  }

  /** A number that cannot be handed out: it has no allocation, or a slot of it is used. */
  predicate Blocked(pool: Prefix, prefixLen: int, used: set<Addr>, n: Int64)
    requires pool.IsValid()
  {
    var r := At(pool, prefixLen, n);
    r.Ok? ==> r.value.a in used || r.value.b in used
  }

  /** Every number up to here has a slot in use. */
  ghost predicate NoneFreeBelow(pool: Prefix, prefixLen: int, used: set<Addr>, number: int)
    requires pool.IsValid()
  {
    forall n: Int64 | First(pool, prefixLen) <= n < number :: Blocked(pool, prefixLen, used, n)
  }

  lemma {:induction false} NoneFreeNext(pool: Prefix, prefixLen: int, used: set<Addr>, number: Int64)
    requires pool.IsValid() && NoneFreeBelow(pool, prefixLen, used, number) && Blocked(pool, prefixLen, used, number)
    ensures NoneFreeBelow(pool, prefixLen, used, number + 1)
  {
  }

  /** The search: the lowest number with both slots free, or proof that none is. */
  method NextFreeIn(pool: Prefix, prefixLen: int, used: set<Addr>) returns (r: Result<Allocation, AllocError>)
    requires pool.IsValid()
    ensures !Shaped(pool, prefixLen) ==> r == Err(CheckShape(pool, prefixLen).value)
    ensures Shaped(pool, prefixLen) && r.Ok? ==>
              && First(pool, prefixLen) <= r.value.number < Count(pool, prefixLen)
              && r == At(pool, prefixLen, r.value.number)
              && r.value.a !in used && r.value.b !in used
              && (forall n | First(pool, prefixLen) <= n < r.value.number :: Blocked(pool, prefixLen, used, n))
    ensures Shaped(pool, prefixLen) && r.Err? ==>
              && Ok(Count(pool, prefixLen)) == Capacity(pool, prefixLen)
              && r == Err(Exhausted(Count(pool, prefixLen)))
              && forall n: Int64 | First(pool, prefixLen) <= n < Count(pool, prefixLen) :: Blocked(pool, prefixLen, used, n)
  {
    var shape := CheckShape(pool, prefixLen);
    if shape.Some? {
      return Err(shape.value);
    }
    CapacityIsCount(pool, prefixLen);
    Pow2Bounds(CountBits(pool, prefixLen));
    var max := MaxNumber(pool, prefixLen).value;
    var number: int := Start(pool, prefixLen);
    while number <= max
      invariant First(pool, prefixLen) <= number <= max + 2
      invariant NoneFreeBelow(pool, prefixLen, used, number)
    {
      var subnet := SubnetForNumber(pool, prefixLen, number);
      if subnet.Ok? {
        var slots := SlotAddresses(subnet.value);
        if slots.Ok? {
          var (a, b) := slots.value;
          if a !in used && b !in used {
            return Ok(Allocation(number, subnet.value, SchemeFor(pool, subnet.value.bits), a, b));
          }
        }
      }
      NoneFreeNext(pool, prefixLen, used, number);
      number := number + 1;
    }
    return Err(Exhausted(max + 1));
  }

  // ------------------------------------------------------------------ slot ownership

  /** Every shape the allocator accepts, of a pool held by its first address. */
  ghost predicate Usable(pool: Prefix, prefixLen: int) {
    Shaped(pool, prefixLen) && pool.IsMasked()
  }

  /** Every number within reach yields an allocation whose addresses lie in its own subnet. */
  lemma {:induction false} AtReached(pool: Prefix, prefixLen: int, n: nat) returns (x: Allocation)
    requires Usable(pool, prefixLen) && Reached(pool, prefixLen, n)
    ensures At(pool, prefixLen, n) == Ok(x)
    ensures x.number == n && SubnetForNumber(pool, prefixLen, n) == Ok(x.subnet)
    ensures x.subnet.Contains(x.a) && x.subnet.Contains(x.b) && x.a != x.b
    ensures x.a.v == x.subnet.addr.v + (if prefixLen == (if pool.addr.is4 then 31 else 127) then 0 else 1)
    ensures x.b.v == x.a.v + 1
    ensures x.scheme == if pool.addr.is4 && pool.bits < 24 <= prefixLen then Octet else Dense
  {
    var subnet := SubnetExact(pool, prefixLen, n);
    SlotsOf(subnet);
    var slots := SlotAddresses(subnet);
    x := Allocation(n, subnet, SchemeFor(pool, subnet.bits), slots.value.0, slots.value.1);
  }

  ghost predicate IsSlot(pool: Prefix, prefixLen: int, n: Int64, x: Addr)
    requires pool.IsValid()
  {
    var r := At(pool, prefixLen, n);
    r.Ok? && (x == r.value.a || x == r.value.b)
  }

  /** An address is a slot of at most one tunnel number within reach. */
  lemma {:induction false} SlotOwner(pool: Prefix, prefixLen: int, m: Int64, n: Int64, x: Addr)
    requires Usable(pool, prefixLen) && Reached(pool, prefixLen, m) && Reached(pool, prefixLen, n)
    requires IsSlot(pool, prefixLen, m, x) && IsSlot(pool, prefixLen, n, x)
    ensures m == n
  {
    var p := AtReached(pool, prefixLen, m);
    var q := AtReached(pool, prefixLen, n);
    if m != n {
      SubnetsDisjoint(pool, prefixLen, m, n, x);
    }
  }

  // --------------------------------------------------------------------- exhaustion

  lemma {:induction false} BlockerOf(pool: Prefix, prefixLen: int, used: set<Addr>, n: nat) returns (x: Addr)
    requires Usable(pool, prefixLen) && Reached(pool, prefixLen, n) && !FreeAt(pool, prefixLen, used, n)
    ensures x in used && IsSlot(pool, prefixLen, n, x)
  {
    var r := AtReached(pool, prefixLen, n);
    x := if r.a in used then r.a else r.b;
  }

  /** Addresses and the number each is a slot of, numbers from the start up to k. */
  ghost predicate Blocking(pool: Prefix, prefixLen: int, b: map<Addr, Int64>, k: int)
    requires Usable(pool, prefixLen)
  {
    forall x | x in b :: b[x] < k && Reached(pool, prefixLen, b[x]) && IsSlot(pool, prefixLen, b[x], x)
  }

  /** One blocking address per number below k, all different. */
  lemma {:induction false} Blockers(pool: Prefix, prefixLen: int, used: set<Addr>, k: nat) returns (b: map<Addr, Int64>)
    requires Usable(pool, prefixLen) && Start(pool, prefixLen) <= k <= Reach(pool, prefixLen)
    requires forall n: Int64 | Start(pool, prefixLen) <= n < k :: !FreeAt(pool, prefixLen, used, n)
    ensures b.Keys <= used && |b| == k - Start(pool, prefixLen) && Blocking(pool, prefixLen, b, k)
    decreases k
  {
    if k == Start(pool, prefixLen) {
      b := map[];
    } else {
      b := Blockers(pool, prefixLen, used, k - 1);
      var x := BlockerOf(pool, prefixLen, used, k - 1);
      NotBlocking(pool, prefixLen, b, k - 1, x);
      b := b[x := k - 1];
    }
  }

  lemma {:induction false} NotBlocking(pool: Prefix, prefixLen: int, b: map<Addr, Int64>, n: Int64, x: Addr)
    requires Usable(pool, prefixLen) && Reached(pool, prefixLen, n) && IsSlot(pool, prefixLen, n, x)
    requires Blocking(pool, prefixLen, b, n)
    ensures x !in b && Blocking(pool, prefixLen, b[x := n], n + 1)
  {
    if x in b {
      SlotOwner(pool, prefixLen, b[x], n, x);
    }
  }

  lemma {:induction false} SubsetSize(b: set<Addr>, used: set<Addr>)
    requires b <= used
    ensures |b| <= |used|
  {
    assert used == b + (used - b);
  }

  /** A pool only runs out when at least one address per number within reach is used. */
  lemma {:induction false} ExhaustionNeedsUse(pool: Prefix, prefixLen: int, used: set<Addr>)
    requires Usable(pool, prefixLen)
    requires |used| < Reach(pool, prefixLen) - Start(pool, prefixLen)
    ensures exists n: Int64 ::
              Start(pool, prefixLen) <= n < Reach(pool, prefixLen) && FreeAt(pool, prefixLen, used, n)
  {
    if forall n: Int64 | Start(pool, prefixLen) <= n < Reach(pool, prefixLen) ::
         !FreeAt(pool, prefixLen, used, n)
    {
      var b := Blockers(pool, prefixLen, used, Reach(pool, prefixLen));
      SubsetSize(b.Keys, used);
    }
  }

  /** A free number past the reach has a free twin within it. */
  lemma {:induction false} FreeWithinReach(pool: Prefix, prefixLen: int, used: set<Addr>, n: int)
    requires Usable(pool, prefixLen) && Available(pool, prefixLen, used, n) && !Reached(pool, prefixLen, n)
    ensures var m := Twin(pool, prefixLen, n);
            Start(pool, prefixLen) <= m < n && Reached(pool, prefixLen, m) && Available(pool, prefixLen, used, m)
  {
    ReachWithin(pool, prefixLen);
    PastTheReach(pool, prefixLen, n);
    if pool.addr.is4 {
      V4NeverCappedNorWrapped(pool, prefixLen);
    }
  }

  // ----------------------------------------------------------------------- draining

  ghost predicate Available(pool: Prefix, prefixLen: int, used: set<Addr>, n: int)
    requires Shaped(pool, prefixLen)
  {
    Legal(pool, prefixLen, n) && FreeAt(pool, prefixLen, used, n)
  }

  /** The free numbers a search may hand out, in order. */
  ghost function FreeList(pool: Prefix, prefixLen: int, used: set<Addr>): seq<int>
    requires Shaped(pool, prefixLen)
  {
    Select(Start(pool, prefixLen), Reach(pool, prefixLen), Availability(pool, prefixLen, used))
  }

  /** The used set once number n's pair has been handed out. */
  ghost function Take(pool: Prefix, prefixLen: int, used: set<Addr>, n: int): set<Addr>
    requires Usable(pool, prefixLen) && Legal(pool, prefixLen, n)
  {
    var r := At(pool, prefixLen, n);
    if r.Ok? then used + {r.value.a, r.value.b} else used
  }

  /** Taking both addresses of n removes n, and nothing else, from the free numbers within reach. */
  lemma {:induction false} TakingOne(pool: Prefix, prefixLen: int, used: set<Addr>, n: int, m: int)
    requires Usable(pool, prefixLen) && Reached(pool, prefixLen, n) && Reached(pool, prefixLen, m)
    ensures Available(pool, prefixLen, Take(pool, prefixLen, used, n), m)
            <==> Available(pool, prefixLen, used, m) && m != n
  {
    var x := AtReached(pool, prefixLen, n);
    var y := AtReached(pool, prefixLen, m);
    if y.a in {x.a, x.b} {
      SlotOwner(pool, prefixLen, n, m, y.a);
    }
    if y.b in {x.a, x.b} {
      SlotOwner(pool, prefixLen, n, m, y.b);
    }
  }

  ghost function Availability(pool: Prefix, prefixLen: int, used: set<Addr>): int -> bool
    requires Shaped(pool, prefixLen)
  {
    n => Reached(pool, prefixLen, n) && Available(pool, prefixLen, used, n)
  }

  lemma {:induction false} TakingFrom(pool: Prefix, prefixLen: int, used: set<Addr>, n: int)
    requires Usable(pool, prefixLen) && Reached(pool, prefixLen, n)
    ensures var p, q := Availability(pool, prefixLen, used),
                        Availability(pool, prefixLen, Take(pool, prefixLen, used, n));
            forall m :: q(m) == (p(m) && m != n)
  {
    forall m | Reached(pool, prefixLen, m)
      ensures Available(pool, prefixLen, Take(pool, prefixLen, used, n), m)
              == (Available(pool, prefixLen, used, m) && m != n)
    {
      TakingOne(pool, prefixLen, used, n, m);
    }
  }

  lemma {:induction false} NoneAnywhere(pool: Prefix, prefixLen: int, used: set<Addr>)
    requires Usable(pool, prefixLen)
    requires forall m | Start(pool, prefixLen) <= m < Reach(pool, prefixLen) :: !Available(pool, prefixLen, used, m)
    ensures forall m | Start(pool, prefixLen) <= m < Count(pool, prefixLen) :: !Available(pool, prefixLen, used, m)
  {
    forall m | Start(pool, prefixLen) <= m < Count(pool, prefixLen) ensures !Available(pool, prefixLen, used, m) {
      if Available(pool, prefixLen, used, m) {
        FreeWithinReach(pool, prefixLen, used, m);
      }
    }
  }

  /** The head of the free list is what a search returns; taking it leaves the tail. */
  lemma {:induction false} HeadIsLowest(pool: Prefix, prefixLen: int, used: set<Addr>)
    requires Usable(pool, prefixLen)
    ensures var l, lo := FreeList(pool, prefixLen, used), Start(pool, prefixLen);
            if l == [] then forall m | lo <= m < Count(pool, prefixLen) :: !Available(pool, prefixLen, used, m)
            else
              && lo <= l[0] && Reached(pool, prefixLen, l[0]) && Available(pool, prefixLen, used, l[0])
              && (forall m | lo <= m < l[0] :: !Available(pool, prefixLen, used, m))
              && FreeList(pool, prefixLen, Take(pool, prefixLen, used, l[0])) == l[1..]
  {
    var lo, hi := Start(pool, prefixLen), Reach(pool, prefixLen);
    var p := Availability(pool, prefixLen, used);
    SelectHead(lo, hi, p);
    var l := FreeList(pool, prefixLen, used);
    forall m | lo <= m < (if l == [] then hi else l[0]) ensures !Available(pool, prefixLen, used, m) {
      assert !p(m) && Reached(pool, prefixLen, m);
    }
    if l == [] {
      NoneAnywhere(pool, prefixLen, used);
    }
    if l != [] {
      assert p(l[0]);
      TakingFrom(pool, prefixLen, used, l[0]);
      SelectTail(lo, hi, p, Availability(pool, prefixLen, Take(pool, prefixLen, used, l[0])));
    }
  }

  /** Numbers handed out by asking for the lowest free one, taking it, and asking again. */
  ghost predicate Drained(pool: Prefix, prefixLen: int, used: set<Addr>, got: seq<int>)
    requires Usable(pool, prefixLen)
    decreases |got|
  {
    var lo := Start(pool, prefixLen);
    if got == [] then
      forall n | lo <= n < Count(pool, prefixLen) :: !Available(pool, prefixLen, used, n)
    else
      && lo <= got[0] && Available(pool, prefixLen, used, got[0])
      && (forall m | lo <= m < got[0] :: !Available(pool, prefixLen, used, m))
      && Drained(pool, prefixLen, Take(pool, prefixLen, used, got[0]), got[1..])
  }

  /** The first number handed out is the head of the free list. */
  lemma {:induction false} FirstDrained(pool: Prefix, prefixLen: int, used: set<Addr>, n: int)
    requires Usable(pool, prefixLen) && Start(pool, prefixLen) <= n && Available(pool, prefixLen, used, n)
    requires forall m | Start(pool, prefixLen) <= m < n :: !Available(pool, prefixLen, used, m)
    ensures var l := FreeList(pool, prefixLen, used);
            l != [] && l[0] == n && l[1..] == FreeList(pool, prefixLen, Take(pool, prefixLen, used, n))
  {
    HeadIsLowest(pool, prefixLen, used);
  }

  /** Draining hands out exactly the free numbers, in order. */
  lemma {:induction false} DrainIsFreeList(pool: Prefix, prefixLen: int, used: set<Addr>, got: seq<int>)
    requires Usable(pool, prefixLen) && Drained(pool, prefixLen, used, got)
    ensures got == FreeList(pool, prefixLen, used)
    decreases |got|
  {
    if got == [] {
      HeadIsLowest(pool, prefixLen, used);
    } else {
      FirstDrained(pool, prefixLen, used, got[0]);
      DrainIsFreeList(pool, prefixLen, Take(pool, prefixLen, used, got[0]), got[1..]);
      assert got == [got[0]] + got[1..];
    }
  }

  /** Every pool can be drained, and in one way only. */
  lemma {:induction false} FreeListDrains(pool: Prefix, prefixLen: int, used: set<Addr>)
    requires Usable(pool, prefixLen)
    ensures Drained(pool, prefixLen, used, FreeList(pool, prefixLen, used))
    decreases |FreeList(pool, prefixLen, used)|
  {
    HeadIsLowest(pool, prefixLen, used);
    var l := FreeList(pool, prefixLen, used);
    if l != [] {
      FreeListDrains(pool, prefixLen, Take(pool, prefixLen, used, l[0]));
    }
  }

  /** What draining hands out: rising numbers, subnets that never share an address. */
  lemma {:induction false} DrainLaw(pool: Prefix, prefixLen: int, used: set<Addr>, got: seq<int>, i: nat, j: nat, x: Addr)
    requires Usable(pool, prefixLen) && Drained(pool, prefixLen, used, got) && i < j < |got|
    ensures got[i] < got[j]
    ensures Legal(pool, prefixLen, got[i]) && Legal(pool, prefixLen, got[j])
    ensures At(pool, prefixLen, got[i]).Ok? && At(pool, prefixLen, got[j]).Ok?
    ensures !(At(pool, prefixLen, got[i]).value.subnet.Contains(x)
              && At(pool, prefixLen, got[j]).value.subnet.Contains(x))
  {
    DrainIsFreeList(pool, prefixLen, used, got);
    SelectLaw(Start(pool, prefixLen), Reach(pool, prefixLen), Availability(pool, prefixLen, used));
    assert got[i] in got && got[j] in got;
    var p := AtReached(pool, prefixLen, got[i]);
    var q := AtReached(pool, prefixLen, got[j]);
    SubnetsDisjoint(pool, prefixLen, got[i], got[j], x);
  }

  /** Everything within reach of an unused pool is free. */
  lemma {:induction false} UnusedIsFree(pool: Prefix, prefixLen: int)
    requires Usable(pool, prefixLen)
    ensures |FreeList(pool, prefixLen, {})| == Reach(pool, prefixLen) - Start(pool, prefixLen)
  {
    var lo, hi := Start(pool, prefixLen), Reach(pool, prefixLen);
    StartWithinReach(pool, prefixLen);
    forall n | lo <= n < hi ensures Availability(pool, prefixLen, {})(n) {
      var _ := AtReached(pool, prefixLen, n);
    }
    SelectAll(lo, hi, Availability(pool, prefixLen, {}));
  }

  lemma {:induction false} StartWithinReach(pool: Prefix, prefixLen: int)
    requires Shaped(pool, prefixLen)
    ensures Start(pool, prefixLen) <= Reach(pool, prefixLen)
  {
    ReachWithin(pool, prefixLen);
  }

  /** The reach in the source's own terms. */
  lemma {:induction false} ReachIs(pool: Prefix, prefixLen: int)
    requires Shaped(pool, prefixLen)
    ensures Capacity(pool, prefixLen).Ok?
    ensures var s, capacity := StrideBits(pool, prefixLen), Capacity(pool, prefixLen).value;
            && (FitsInt64(pool, prefixLen) ==> Reach(pool, prefixLen) == capacity)
            && (!FitsInt64(pool, prefixLen) ==>
                  Start(pool, prefixLen) == 0 && Reach(pool, prefixLen) == (if s <= 63 then Pow2(63 - s) else 1) < capacity)
  {
    CapacityIsCount(pool, prefixLen);
    ReachWithin(pool, prefixLen);
    if pool.addr.is4 {
      V4NeverCappedNorWrapped(pool, prefixLen);
    }
  }

  /** From an unused pool, draining takes Capacity steps, one fewer for the octet scheme, where the
      product fits; otherwise it stops early, though Capacity is still what it reports. */
  lemma {:induction false} DrainLength(pool: Prefix, prefixLen: int, got: seq<int>)
    requires Usable(pool, prefixLen) && Drained(pool, prefixLen, {}, got)
    ensures Capacity(pool, prefixLen).Ok?
    ensures var s, capacity := StrideBits(pool, prefixLen), Capacity(pool, prefixLen).value;
            && (FitsInt64(pool, prefixLen) ==>
                  |got| == capacity - (if SchemeFor(pool, prefixLen) == Octet then 1 else 0))
            && (!FitsInt64(pool, prefixLen) ==> |got| == (if s <= 63 then Pow2(63 - s) else 1) < capacity)
  {
    DrainIsFreeList(pool, prefixLen, {}, got);
    UnusedIsFree(pool, prefixLen);
    ReachIs(pool, prefixLen);
  }

  /** A /48 of /64 subnets: 65536 numbers are reported, and one is handed out. */
  lemma {:induction false} OneOf65536(pool: Prefix, got: seq<int>)
    requires !pool.addr.is4 && pool.bits == 48 && pool.IsMasked() && Drained(pool, 64, {}, got)
    ensures Capacity(pool, 64) == Ok(65536) && |got| == 1
  {
    DrainLength(pool, 64, got);
    CapacityIsCount(pool, 64);
    var c := 16;
    assert CountBits(pool, 64) == c;
    Pow2At(c);
  }
}
