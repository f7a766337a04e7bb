/** The allocator in plain arithmetic: which shapes are accepted, and what the numbers of each stand for. */
module AllocForms {
  import opened Basics
  import opened Powers
  import opened Alloc
  import opened AllocLaws
  import opened AllocPool
  import opened Ascending

  /** Address widths: 32 bits and 128. */
  function Width(is4: bool): nat { if is4 then 32 else 128 }

  /** IPv4 pools wider than a /24, cut no wider than a /24. */
  predicate ByThirdOctet(pool: Prefix, prefixLen: int) { pool.addr.is4 && pool.bits < 24 <= prefixLen }

  /** Accepted are exactly the lengths from the pool's own to /31 and /127; each refusal says why. */
  lemma {:induction false} ShapeLaw(pool: Prefix, prefixLen: int)
    ensures var w := Width(pool.addr.is4);
            && (Shaped(pool, prefixLen) <==> 0 <= pool.bits <= prefixLen < w)
            && (CheckShape(pool, prefixLen) == Some(BadPool) <==> !(0 <= pool.bits <= w))
            && (CheckShape(pool, prefixLen) == Some(SubnetTooLarge) <==> 0 <= pool.bits <= w && prefixLen < pool.bits)
            && (CheckShape(pool, prefixLen) == Some(LengthOutOfRange) <==> 0 <= pool.bits <= w && prefixLen > w)
            && (CheckShape(pool, prefixLen) == Some(TooFewAddresses) <==> 0 <= pool.bits <= w && prefixLen == w)
  {
  }

  /** An address is in a masked pool exactly when it lies in the pool's range. */
  lemma {:induction false} ContainsIff(pool: Prefix, a: Addr)
    requires pool.IsValid() && pool.IsMasked()
    ensures pool.Contains(a)
            <==> a.is4 == pool.addr.is4 && pool.addr.v <= a.v < pool.addr.v + Pow2(Width(pool.addr.is4) - pool.bits)
  {
    var size := pool.Size();
    BlockOffset(pool.addr.v, 0, size);
    RoundDown(a.v, size);
    if pool.addr.v <= a.v < pool.addr.v + size {
      BlockOffset(pool.addr.v, a.v - pool.addr.v, size);
    }
  }

  // ------------------------------------------------------------------ numbers by the third octet

  /** There are 2^(24-bits) numbers, from 0. */
  lemma {:induction false} OctetCapacity(pool: Prefix, prefixLen: int)
    requires 0 <= pool.bits && prefixLen <= 31 && ByThirdOctet(pool, prefixLen)
    ensures Capacity(pool, prefixLen) == Ok(Pow2(24 - pool.bits)) && MaxNumber(pool, prefixLen) == Ok(Pow2(24 - pool.bits) - 1)
  {
    CapacityIsCount(pool, prefixLen);
  }

  /** Number n is the subnet at the pool's start plus 256 n. */
  lemma {:induction false} OctetNumbers(pool: Prefix, prefixLen: int, n: nat)
    requires 0 <= pool.bits && prefixLen <= 31 && ByThirdOctet(pool, prefixLen) && pool.IsMasked()
    requires n < Pow2(24 - pool.bits)
    ensures n < 0x8000_0000_0000_0000 && pool.addr.v + 256 * n < Pow2(32)
    ensures SubnetForNumber(pool, prefixLen, n) == Ok(Prefix(RawAddr(true, pool.addr.v + 256 * n), prefixLen))
  {
    V4NeverCappedNorWrapped(pool, prefixLen);
    assert Pow2(8) == 256;
    ReachedSubnet(pool, prefixLen, n, 256 * n);
  }

  /** A number within reach and its offset. */
  lemma {:induction false} ReachedSubnet(pool: Prefix, prefixLen: int, n: nat, offset: nat)
    requires Usable(pool, prefixLen) && n < Reach(pool, prefixLen)
    requires offset == n * Pow2(StrideBits(pool, prefixLen))
    ensures n < 0x8000_0000_0000_0000 && pool.addr.v + offset < Pow2(Width(pool.addr.is4))
    ensures SubnetForNumber(pool, prefixLen, n) == Ok(Prefix(RawAddr(pool.addr.is4, pool.addr.v + offset), prefixLen))
  {
    var subnet := SubnetExact(pool, prefixLen, n);
  }

  /** Everywhere else there are as many numbers as subnets fit the pool, or 2^24. */
  lemma {:induction false} DenseCapacity(pool: Prefix, prefixLen: int)
    requires 0 <= pool.bits <= prefixLen < Width(pool.addr.is4) && !ByThirdOctet(pool, prefixLen)
    ensures var count := Pow2(if prefixLen - pool.bits > 24 then 24 else prefixLen - pool.bits);
            Capacity(pool, prefixLen) == Ok(count) && MaxNumber(pool, prefixLen) == Ok(count - 1)
  {
    DenseBits(pool, prefixLen);
    CapacityIsCount(pool, prefixLen);
  }

  /** And number n is the n-th subnet from the pool's start, as long as its offset is below 2^63. */
  lemma {:induction false} DenseNumbers(pool: Prefix, prefixLen: int, n: nat, offset: int)
    requires 0 <= pool.bits <= prefixLen < Width(pool.addr.is4) && !ByThirdOctet(pool, prefixLen) && pool.IsMasked()
    requires n < Pow2(if prefixLen - pool.bits > 24 then 24 else prefixLen - pool.bits)
    requires offset == n * Pow2(Width(pool.addr.is4) - prefixLen) < 0x8000_0000_0000_0000
    ensures 0 <= offset && n < 0x8000_0000_0000_0000 && pool.addr.v + offset < Pow2(Width(pool.addr.is4))
    ensures SubnetForNumber(pool, prefixLen, n) == Ok(Prefix(RawAddr(pool.addr.is4, pool.addr.v + offset), prefixLen))
  {
    DenseBits(pool, prefixLen);
    MulMonotone(0, n, Pow2(Width(pool.addr.is4) - prefixLen));
    OffsetReached(pool, prefixLen, n);
    ReachedSubnet(pool, prefixLen, n, offset);
  }

  lemma {:induction false} DenseBits(pool: Prefix, prefixLen: int)
    requires 0 <= pool.bits <= prefixLen < Width(pool.addr.is4) && !ByThirdOctet(pool, prefixLen)
    ensures Shaped(pool, prefixLen) && StrideBits(pool, prefixLen) == Width(pool.addr.is4) - prefixLen
    ensures Count(pool, prefixLen) == Pow2(if prefixLen - pool.bits > 24 then 24 else prefixLen - pool.bits)
  {
  }

  /** A legal offset below 2^63 is within reach. */
  lemma {:induction false} OffsetReached(pool: Prefix, prefixLen: int, n: nat)
    requires Shaped(pool, prefixLen) && n < Count(pool, prefixLen)
    requires n * Pow2(StrideBits(pool, prefixLen)) < 0x8000_0000_0000_0000
    ensures n < Reach(pool, prefixLen)
  {
    var e := StrideBits(pool, prefixLen);
    ReachWithin(pool, prefixLen);
    if n >= Reach(pool, prefixLen) {
      var k, half := if e <= 63 then 63 - e else 0, 63;
      MulMonotone(Pow2(k), n, Pow2(e));
      Pow2Add(k, e);
      Pow2Bounds(half);
      Pow2Monotone(half, k + e);
    }
  }

  // ------------------------------------------------------------------------- the inverse

  /** How far apart the numbers' subnets start. */
  function Step(pool: Prefix, prefixLen: int): nat
    requires prefixLen <= Width(pool.addr.is4)
  {
    if ByThirdOctet(pool, prefixLen) then 256 else Pow2(Width(pool.addr.is4) - prefixLen)
  }

  /** A subnet has a number exactly when it is in the pool, a whole number of steps from its start, at
      most 2^62 from it, and the step is not lost to the shift; the number is how many steps. */
  lemma {:induction false} NumberForSubnetIs(pool: Prefix, subnet: Prefix)
    requires subnet.IsValid() && Shaped(pool, subnet.bits) && pool.IsMasked()
    ensures var offset, step := subnet.addr.v - pool.addr.v, Step(pool, subnet.bits);
            NumberForSubnet(pool, subnet)
            == if pool.Contains(subnet.addr) && 0 <= offset <= 0x4000_0000_0000_0000 && step < WORD && offset % step == 0
               then Some(offset / step) else None
  {
    var off, e := subnet.addr.v - pool.addr.v, StrideBits(pool, subnet.bits);
    assert Pow2(8) == 256 && Step(pool, subnet.bits) == Pow2(e);
    StepBound(e);
    if pool.Contains(subnet.addr) {
      ContainsIff(pool, subnet.addr);
      GapOfOffset(pool, off);
      if off <= 0x4000_0000_0000_0000 {
        QuotientOfStride(pool, subnet.bits, off);
        NumberFromGap(pool, subnet, off);
      }
    }
  }

  lemma {:induction false} StepBound(e: nat)
    ensures Pow2(e) < WORD <==> e <= 63
  {
    Pow2Bounds(e);
  }

  /** Dividing by the stride as it is held is dividing by the step, up to 2^62. */
  lemma {:induction false} QuotientOfStride(pool: Prefix, prefixLen: int, off: nat)
    requires Shaped(pool, prefixLen) && off <= 0x4000_0000_0000_0000
    ensures var stride, step := Stride(pool, prefixLen), Pow2(StrideBits(pool, prefixLen));
            && (stride == 0 <==> StrideBits(pool, prefixLen) >= 64)
            && (stride != 0 ==>
                  && (off % stride == 0 <==> off % step == 0)
                  && (off % stride == 0 ==> off / stride == off / step && Wrap64(off / stride) == off / step))
  {
    var e := StrideBits(pool, prefixLen);
    Pow2Bounds(e);
    if e <= 62 {
      StrideIsPow(pool, prefixLen);
      if off % Pow2(e) == 0 {
        ExactQuotient(off, Pow2(e));
      }
    } else if e == 63 {
      assert Stride(pool, prefixLen) == -0x8000_0000_0000_0000 && Pow2(e) == 0x8000_0000_0000_0000;
    }
  }

  // ------------------------------------------------------------------------- where draining starts

  /** All of a range, in order. */
  lemma {:induction false} SelectRange(lo: int, hi: int, p: int -> bool, i: nat)
    requires lo <= hi && (forall n | lo <= n < hi :: p(n)) && i < hi - lo
    ensures |Select(lo, hi, p)| == hi - lo && Select(lo, hi, p)[i] == lo + i
    decreases hi - lo
  {
    SelectAll(lo, hi, p);
    if i > 0 {
      SelectRange(lo + 1, hi, p, i - 1);
    }
  }

  lemma {:induction false} UnusedAt(pool: Prefix, prefixLen: int, got: seq<int>, i: nat)
    requires Usable(pool, prefixLen) && Drained(pool, prefixLen, {}, got) && i < |got|
    ensures |got| == Reach(pool, prefixLen) - Start(pool, prefixLen) && got[i] == Start(pool, prefixLen) + i
  {
    DrainIsFreeList(pool, prefixLen, {}, got);
    UnusedIsFree(pool, prefixLen);
    forall n | Start(pool, prefixLen) <= n < Reach(pool, prefixLen) ensures Availability(pool, prefixLen, {})(n) {
      var _ := AtReached(pool, prefixLen, n);
    }
    SelectRange(Start(pool, prefixLen), Reach(pool, prefixLen), Availability(pool, prefixLen, {}), i);
  }

  /** By the third octet an unused pool gives out 1, 2, 3 and so on to the last number: never 0. */
  lemma {:induction false} OctetDrain(pool: Prefix, prefixLen: int, got: seq<int>)
    requires 0 <= pool.bits && prefixLen <= 31 && ByThirdOctet(pool, prefixLen) && pool.IsMasked()
    requires Drained(pool, prefixLen, {}, got)
    ensures |got| == Pow2(24 - pool.bits) - 1 && forall i | 0 <= i < |got| :: got[i] == i + 1
  {
    DrainLength(pool, prefixLen, got);
    OctetCapacity(pool, prefixLen);
    V4NeverCappedNorWrapped(pool, prefixLen);
    forall i | 0 <= i < |got| ensures got[i] == i + 1 {
      UnusedAt(pool, prefixLen, got, i);
    }
  }

  /** Everywhere else it gives out 0, 1, 2 and so on. */
  lemma {:induction false} DenseDrain(pool: Prefix, prefixLen: int, got: seq<int>)
    requires 0 <= pool.bits <= prefixLen < Width(pool.addr.is4) && !ByThirdOctet(pool, prefixLen) && pool.IsMasked()
    requires Drained(pool, prefixLen, {}, got)
    ensures got != [] && forall i | 0 <= i < |got| :: got[i] == i
  {
    DrainIsFreeList(pool, prefixLen, {}, got);
    UnusedIsFree(pool, prefixLen);
    ReachWithin(pool, prefixLen);
    forall i | 0 <= i < |got| ensures got[i] == i {
      UnusedAt(pool, prefixLen, got, i);
    }
  }

  /** An IPv4 address by its number. */
  function V4(v: nat): (a: Addr)
    requires v < 0x1_0000_0000
  {
    Pow2At(BitLen(true));
    RawAddr(true, v)
  }

  /** Number 7 of 172.17.0.0/16 in /30s is 172.17.7.0/30, one of 256, with .1 and .2 as its pair. */
  lemma {:induction false} SeventhOfSixteen()
    ensures var pool, subnet := Prefix(V4(0xAC11_0000), 16), Prefix(V4(0xAC11_0700), 30);
            && Capacity(pool, 30) == Ok(256)
            && SubnetForNumber(pool, 30, 7) == Ok(subnet)
            && SlotAddresses(subnet) == Ok((V4(0xAC11_0701), V4(0xAC11_0702)))
  {
    var pool, subnet := Prefix(V4(0xAC11_0000), 16), Prefix(V4(0xAC11_0700), 30);
    var h: nat := 16;
    Pow2At(h);
    assert pool.Size() == Pow2(h) && Pow2(8) == 256;
    OctetCapacity(pool, 30);
    OctetNumbers(pool, 30, 7);
    assert Pow2(2) == 4 && subnet.Size() == 4;
    SlotsOf(subnet);
  }
}
