/** The number-to-subnet mapping: total, disjoint and invertible, and exactly when. */
module AllocLaws {
  import opened Basics
  import opened Powers
  import opened Alloc

  // ------------------------------------------------------------------ divisibility

  lemma {:induction false} ModZero(k: int, d: int)
    requires d > 0
    ensures (k * d) % d == 0
    ensures (k * d) / d == k
  {
    QuotientUnique(k, 0, d);
  }

  lemma {:induction false} MultipleOfPow(x: nat, a: nat, b: nat)
    requires b <= a && x % Pow2(a) == 0
    ensures x % Pow2(b) == 0
  {
    var q, w := x / Pow2(a), Pow2(a - b);
    BlockOffset(x, 0, Pow2(a));
    Pow2Add(a - b, b);
    MulAssoc(q, w, Pow2(b));
    ModZero(q * w, Pow2(b));
  }

  lemma {:induction false} SumOfMultiples(x: nat, y: nat, d: int)
    requires d > 0 && x % d == 0 && y % d == 0
    ensures (x + y) % d == 0
  {
    assert x + y == (x / d + y / d) * d;
    ModZero(x / d + y / d, d);
  }

  // --------------------------------------------------------------------- the shape

  lemma {:induction false} CountTimesStride(pool: Prefix, prefixLen: int)
    requires Shaped(pool, prefixLen)
    ensures var c, e := CountBits(pool, prefixLen), StrideBits(pool, prefixLen);
            && Count(pool, prefixLen) * Pow2(e) == Pow2(c + e) <= pool.Size()
            && (Count(pool, prefixLen) - 1) * Pow2(e) == Pow2(c + e) - Pow2(e)
            && BitLen(pool.addr.is4) - prefixLen <= e
  {
    var c, e := CountBits(pool, prefixLen), StrideBits(pool, prefixLen);
    Pow2Add(c, e);
    Pow2Monotone(c + e, BitLen(pool.addr.is4) - pool.bits);
    Distribute(Count(pool, prefixLen) - 1, 1, Pow2(e));
  }

  /** A legal offset stays inside the pool. */
  lemma {:induction false} OffsetInside(pool: Prefix, prefixLen: int, n: nat)
    requires Shaped(pool, prefixLen) && n < Count(pool, prefixLen)
    ensures 0 <= n * Pow2(StrideBits(pool, prefixLen)) < pool.Size()
  {
    var d := Pow2(StrideBits(pool, prefixLen));
    CountTimesStride(pool, prefixLen);
    MulMonotone(n + 1, Count(pool, prefixLen), d);
    MulMonotone(0, n, d);
    Distribute(n, 1, d);
  }

  /** A masked pool never reaches past the end of its address space. */
  lemma {:induction false} RoomAbove(pool: Prefix)
    requires pool.IsValid() && pool.IsMasked()
    ensures pool.addr.v + pool.Size() <= Pow2(BitLen(pool.addr.is4))
  {
    Pow2Add(pool.bits, BitLen(pool.addr.is4) - pool.bits);
    LastBlock(pool.addr.v, pool.Size(), Pow2(pool.bits));
  }

  lemma {:induction false} ContainsOffset(pool: Prefix, off: nat)
    requires pool.IsValid() && pool.IsMasked() && off < pool.Size()
    requires pool.addr.v + off < Pow2(BitLen(pool.addr.is4))
    ensures pool.Contains(RawAddr(pool.addr.is4, pool.addr.v + off))
  {
    BlockOffset(pool.addr.v, off, pool.Size());
  }

  // ----------------------------------------------------------- the 64-bit product

  lemma {:induction false} StrideIsPow(pool: Prefix, prefixLen: int)
    requires Shaped(pool, prefixLen) && StrideBits(pool, prefixLen) <= 62
    ensures Stride(pool, prefixLen) == Pow2(StrideBits(pool, prefixLen))
  {
    Pow2At(StrideBits(pool, prefixLen));
  }

  ghost predicate ExactAt(pool: Prefix, prefixLen: int, n: nat)
    requires Shaped(pool, prefixLen) && n < Count(pool, prefixLen)
  {
    CapacityIsCount(pool, prefixLen);
    Wrap64(n * Stride(pool, prefixLen)) == n * Pow2(StrideBits(pool, prefixLen))
  }

  /** Below the reach an offset is below 2^63, or there is only the offset 0. */
  lemma {:induction false} OffsetBelow(pool: Prefix, prefixLen: int, n: nat)
    requires Shaped(pool, prefixLen) && n < Reach(pool, prefixLen)
    ensures n == 0 || (StrideBits(pool, prefixLen) <= 62 && 0 <= n * Pow2(StrideBits(pool, prefixLen)) < 0x8000_0000_0000_0000)
  {
    var c, e := CountBits(pool, prefixLen), StrideBits(pool, prefixLen);
    if n > 0 {
      var k := if FitsInt64(pool, prefixLen) then c else 63 - e;
      assert Reach(pool, prefixLen) == Pow2(k) && k > 0 && k + e <= 63;
      Pow2Add(k, e);
      Pow2Bounds(k + e);
      MulMonotone(n + 1, Pow2(k), Pow2(e));
      MulMonotone(0, n, Pow2(e));
      Distribute(n, 1, Pow2(e));
    }
  }

  lemma {:induction false} ProductExact(pool: Prefix, prefixLen: int, n: nat)
    requires Shaped(pool, prefixLen) && n < Reach(pool, prefixLen)
    ensures n < Count(pool, prefixLen) && ExactAt(pool, prefixLen, n)
  {
    ReachWithin(pool, prefixLen);
    OffsetBelow(pool, prefixLen, n);
    if n > 0 {
      StrideIsPow(pool, prefixLen);
    }
  }

  /** The first number whose offset no longer fits, when the shape allows one. */
  lemma {:induction false} FirstWrapped(pool: Prefix, prefixLen: int) returns (n: nat)
    requires Shaped(pool, prefixLen) && !FitsInt64(pool, prefixLen) && StrideBits(pool, prefixLen) <= 63
    ensures 0 < n < Count(pool, prefixLen)
    ensures Wrap64(n * Stride(pool, prefixLen)) == -0x8000_0000_0000_0000
  {
    var c, e := CountBits(pool, prefixLen), StrideBits(pool, prefixLen);
    n := Pow2(63 - e);
    Pow2Strict(63 - e, c);
    Pow2Add(63 - e, e);
    Pow2Bounds(63 - e + e);
    if e <= 62 {
      StrideIsPow(pool, prefixLen);
    }
  }

  /** The product is exact for every legal number exactly when it can never wrap. */
  lemma {:induction false} ExactIffFits(pool: Prefix, prefixLen: int)
    requires Shaped(pool, prefixLen)
    ensures FitsInt64(pool, prefixLen) <==>
            forall n: nat | n < Count(pool, prefixLen) :: ExactAt(pool, prefixLen, n)
  {
    if FitsInt64(pool, prefixLen) {
      forall n: nat | n < Count(pool, prefixLen) ensures ExactAt(pool, prefixLen, n) {
        ProductExact(pool, prefixLen, n);
      }
    } else if StrideBits(pool, prefixLen) <= 63 {
      var n := FirstWrapped(pool, prefixLen);
      MulMonotone(0, n, Pow2(StrideBits(pool, prefixLen)));
      assert !ExactAt(pool, prefixLen, n);
    } else {
      Pow2Strict(0, CountBits(pool, prefixLen));
      assert !ExactAt(pool, prefixLen, 1);
    }
  }

  // ---------------------------------------------------------- from number to subnet

  /** Numbers outside 0..MaxNumber are refused, whatever the shape. */
  lemma {:induction false} IllegalRefused(pool: Prefix, prefixLen: int, n: Int64)
    requires Shaped(pool, prefixLen) && !(0 <= n < Count(pool, prefixLen))
    ensures SubnetForNumber(pool, prefixLen, n) == Err(NumberDoesNotFit(Count(pool, prefixLen) - 1))
  {
    CapacityIsCount(pool, prefixLen);
  }

  /** A legal offset keeps the subnet's alignment and leaves room for the whole subnet. */
  lemma {:induction false} OffsetAligned(pool: Prefix, prefixLen: int, n: nat)
    requires Shaped(pool, prefixLen) && pool.IsMasked() && n < Count(pool, prefixLen)
    ensures var off, size := n * Pow2(StrideBits(pool, prefixLen)), Pow2(BitLen(pool.addr.is4) - prefixLen);
            off >= 0 && (pool.addr.v + off) % size == 0 && off + size <= pool.Size()
  {
    var e, s := StrideBits(pool, prefixLen), BitLen(pool.addr.is4) - prefixLen;
    var off := n * Pow2(e);
    OffsetInside(pool, prefixLen, n);
    MultipleOfPow(pool.addr.v, BitLen(pool.addr.is4) - pool.bits, s);
    ModZero(n, Pow2(e));
    CountTimesStride(pool, prefixLen);
    MultipleOfPow(off, e, s);
    SumOfMultiples(pool.addr.v, off, Pow2(s));
    Pow2Monotone(s, e);
    MulMonotone(n + 1, Count(pool, prefixLen), Pow2(e));
    Distribute(n, 1, Pow2(e));
  }

  /** Number n is the subnet n strides into the pool, aligned and inside it. */
  lemma {:induction false} SubnetExact(pool: Prefix, prefixLen: int, n: nat) returns (subnet: Prefix)
    requires Shaped(pool, prefixLen) && pool.IsMasked() && n < Reach(pool, prefixLen)
    ensures n < 0x8000_0000_0000_0000
    ensures SubnetForNumber(pool, prefixLen, n) == Ok(subnet)
    ensures subnet.IsValid() && subnet.IsMasked() && subnet.bits == prefixLen
    ensures subnet.addr.is4 == pool.addr.is4
    ensures subnet.addr.v == pool.addr.v + n * Pow2(StrideBits(pool, prefixLen))
    ensures subnet.addr.v + subnet.Size() <= pool.addr.v + pool.Size()
  {
    CapacityIsCount(pool, prefixLen);
    var off := n * Pow2(StrideBits(pool, prefixLen));
    ProductExact(pool, prefixLen, n);
    OffsetAligned(pool, prefixLen, n);
    RoomAbove(pool);
    ContainsOffset(pool, off);
    SubnetAt(pool, prefixLen, n, off);
    subnet := PlacedSubnet(pool, prefixLen, off);
  }

  /** A subnet at an aligned offset. */
  lemma {:induction false} PlacedSubnet(pool: Prefix, prefixLen: int, off: nat) returns (subnet: Prefix)
    requires Shaped(pool, prefixLen) && pool.addr.v + off < Pow2(BitLen(pool.addr.is4))
    requires (pool.addr.v + off) % Pow2(BitLen(pool.addr.is4) - prefixLen) == 0
    ensures subnet == Prefix(RawAddr(pool.addr.is4, pool.addr.v + off), prefixLen)
    ensures subnet.IsValid() && subnet.IsMasked() && subnet.Size() == Pow2(BitLen(pool.addr.is4) - prefixLen)
  {
    subnet := Prefix(RawAddr(pool.addr.is4, pool.addr.v + off), prefixLen);
  }

  /** An exact offset that stays inside is where the subnet is. */
  lemma {:induction false} SubnetAt(pool: Prefix, prefixLen: int, n: Int64, off: nat)
    requires Shaped(pool, prefixLen) && 0 <= n < Count(pool, prefixLen)
    requires Wrap64(n * Stride(pool, prefixLen)) == off && pool.addr.v + off < Pow2(BitLen(pool.addr.is4))
    requires pool.Contains(RawAddr(pool.addr.is4, pool.addr.v + off))
    ensures SubnetForNumber(pool, prefixLen, n) == Ok(Prefix(RawAddr(pool.addr.is4, pool.addr.v + off), prefixLen))
  {
    CapacityIsCount(pool, prefixLen);
  }

  lemma {:induction false} DistinctBases(pool: Prefix, prefixLen: int, m: nat, n: nat)
    requires Shaped(pool, prefixLen) && m < n
    ensures m * Pow2(StrideBits(pool, prefixLen)) < n * Pow2(StrideBits(pool, prefixLen))
  {
    var d := Pow2(StrideBits(pool, prefixLen));
    MulMonotone(m + 1, n, d);
    Distribute(m, 1, d);
  }

  /** Two aligned ranges of one length that share an address are one range. */
  lemma {:induction false} AlignedOverlap(p: Prefix, q: Prefix, a: Addr)
    requires p.IsValid() && q.IsValid() && p.bits == q.bits
    requires p.IsMasked() && q.IsMasked() && p.Contains(a) && q.Contains(a)
    ensures p == q
  {
    BlockOffset(p.addr.v, 0, p.Size());
    BlockOffset(q.addr.v, 0, q.Size());
  }

  /** No address belongs to the subnets of two different numbers. */
  lemma {:induction false} SubnetsDisjoint(pool: Prefix, prefixLen: int, m: nat, n: nat, a: Addr)
    requires Shaped(pool, prefixLen) && pool.IsMasked()
    requires m < Reach(pool, prefixLen) && n < Reach(pool, prefixLen) && m != n
    ensures m < 0x8000_0000_0000_0000 && n < 0x8000_0000_0000_0000
    ensures SubnetForNumber(pool, prefixLen, m).Ok? && SubnetForNumber(pool, prefixLen, n).Ok?
    ensures !(SubnetForNumber(pool, prefixLen, m).value.Contains(a)
              && SubnetForNumber(pool, prefixLen, n).value.Contains(a))
  {
    var p := SubnetExact(pool, prefixLen, m);
    var q := SubnetExact(pool, prefixLen, n);
    if p.Contains(a) && q.Contains(a) {
      AlignedOverlap(p, q, a);
      if m < n {
        DistinctBases(pool, prefixLen, m, n);
      } else {
        DistinctBases(pool, prefixLen, n, m);
      }
    }
  }

  ghost predicate Legal(pool: Prefix, prefixLen: int, n: int)
    requires Shaped(pool, prefixLen)
    ensures Legal(pool, prefixLen, n) ==> 0 <= n < 0x8000_0000_0000_0000
  {
    CapacityIsCount(pool, prefixLen);
    0 <= n < Count(pool, prefixLen)
  }

  /** A number that no lower one shares its subnet with. */
  ghost predicate Reached(pool: Prefix, prefixLen: int, n: int)
    requires Shaped(pool, prefixLen)
    ensures Reached(pool, prefixLen, n) ==> Legal(pool, prefixLen, n)
  {
    ReachWithin(pool, prefixLen);
    0 <= n < Reach(pool, prefixLen)
  }

  /** Every legal number has a subnet of its own exactly when the product fits. */
  lemma {:induction false} OwnSubnetIffFits(pool: Prefix, prefixLen: int)
    requires Shaped(pool, prefixLen) && pool.IsMasked()
    ensures FitsInt64(pool, prefixLen) <==>
            && (forall n | Legal(pool, prefixLen, n) :: SubnetForNumber(pool, prefixLen, n).Ok?)
            && (forall m, n | Legal(pool, prefixLen, m) && Legal(pool, prefixLen, n) && m != n ::
                  SubnetForNumber(pool, prefixLen, m) != SubnetForNumber(pool, prefixLen, n))
  {
    CapacityIsCount(pool, prefixLen);
    if FitsInt64(pool, prefixLen) {
      forall n | Legal(pool, prefixLen, n) ensures SubnetForNumber(pool, prefixLen, n).Ok? {
        var _ := SubnetExact(pool, prefixLen, n);
      }
      forall m, n | Legal(pool, prefixLen, m) && Legal(pool, prefixLen, n) && m != n
        ensures SubnetForNumber(pool, prefixLen, m) != SubnetForNumber(pool, prefixLen, n)
      {
        SubnetsDisjoint(pool, prefixLen, m, n, SubnetForNumber(pool, prefixLen, m).value.addr);
      }
    } else if StrideBits(pool, prefixLen) <= 63 {
      var n := FirstWrapped(pool, prefixLen);
      assert Legal(pool, prefixLen, n) && SubnetForNumber(pool, prefixLen, n).Err?;
    } else {
      Collapse(pool, prefixLen, 0);
      Pow2Strict(0, CountBits(pool, prefixLen));
      Collapse(pool, prefixLen, 1);
      assert Legal(pool, prefixLen, 0) && Legal(pool, prefixLen, 1);
    }
  }

  /** With 64 or more host bits the stride is 0: every number is the pool's first subnet. */
  lemma {:induction false} Collapse(pool: Prefix, prefixLen: int, n: int)
    requires Shaped(pool, prefixLen) && pool.IsMasked() && Legal(pool, prefixLen, n)
    requires StrideBits(pool, prefixLen) >= 64
    ensures SubnetForNumber(pool, prefixLen, n) == Ok(Prefix(pool.addr, prefixLen))
  {
    CapacityIsCount(pool, prefixLen);
    assert n * Stride(pool, prefixLen) == 0;
  }

  // ------------------------------------------------------------------ past the reach

  /** The number below the reach whose subnet a number past it would be given, if it is given any. */
  function Twin(pool: Prefix, prefixLen: int, n: nat): nat
    requires Shaped(pool, prefixLen)
  {
    if StrideBits(pool, prefixLen) <= 63 then n % Pow2(64 - StrideBits(pool, prefixLen)) else 0
  }

  /** Up to 63 the stride's bit, sign and all, gives the product of the true stride reduced to 64 bits. */
  lemma {:induction false} WrapsLikeTrue(pool: Prefix, prefixLen: int, n: nat)
    requires Shaped(pool, prefixLen) && StrideBits(pool, prefixLen) <= 63
    ensures Wrap64(n * Stride(pool, prefixLen)) == Wrap64(n * Pow2(StrideBits(pool, prefixLen)))
  {
    var e := StrideBits(pool, prefixLen);
    if e <= 62 {
      StrideIsPow(pool, prefixLen);
    } else {
      Pow2Bounds(e);
      assert Stride(pool, prefixLen) == 0 - Pow2(e) && 2 * Pow2(e) == WORD;
      NegatedProduct(n, Pow2(e));
      WrapShift(n * Pow2(e), 0 - n);
    }
  }

  lemma {:induction false} NegatedProduct(n: nat, half: int)
    ensures n * (0 - half) == n * half + (0 - n) * (2 * half)
  {
  }

  /** Whole words do not show in 64 bits. */
  lemma {:induction false} WrapShift(x: int, k: int)
    ensures Wrap64(x + k * WORD) == Wrap64(x)
  {
    var y := x + 0x8000_0000_0000_0000;
    QuotientUnique(y / WORD + k, y % WORD, WORD);
    Distribute(y / WORD, k, WORD);
  }

  /** Past the reach a number is refused or shares its subnet with a lower one. */
  lemma {:induction false} PastTheReach(pool: Prefix, prefixLen: int, n: nat)
    requires Shaped(pool, prefixLen) && pool.IsMasked() && Reach(pool, prefixLen) <= n < Count(pool, prefixLen)
    ensures n < 0x8000_0000_0000_0000 && Twin(pool, prefixLen, n) < 0x8000_0000_0000_0000
    ensures SubnetForNumber(pool, prefixLen, n).Ok? ==>
              && Twin(pool, prefixLen, n) < Reach(pool, prefixLen)
              && SubnetForNumber(pool, prefixLen, Twin(pool, prefixLen, n)) == SubnetForNumber(pool, prefixLen, n)
  {
    CapacityIsCount(pool, prefixLen);
    ReachWithin(pool, prefixLen);
    if StrideBits(pool, prefixLen) > 63 {
      Collapse(pool, prefixLen, n);
      Collapse(pool, prefixLen, 0);
    } else {
      TwinProduct(pool, prefixLen, n);
      var m := Twin(pool, prefixLen, n);
      if m < Reach(pool, prefixLen) {
        ProductExact(pool, prefixLen, m);
      }
    }
  }

  /** One word's worth, read as signed. */
  lemma {:induction false} WrapWord(x: int)
    requires 0 <= x < WORD
    ensures Wrap64(x) == if x < 0x8000_0000_0000_0000 then x else x - WORD
  {
  }

  /** A multiple of a power of two, up to whole words. */
  lemma {:induction false} WholeWords(n: nat, e: nat)
    requires e <= 63
    ensures n * Pow2(e) == n % Pow2(64 - e) * Pow2(e) + n / Pow2(64 - e) * WORD
  {
    var word := 64;
    Pow2At(word);
    Pow2Add(word - e, e);
    SplitProduct(n, Pow2(word - e), Pow2(e));
  }

  lemma {:induction false} SplitProduct(n: nat, p: nat, d: nat)
    requires p > 0
    ensures n * d == n % p * d + n / p * (p * d)
  {
    var k, m := n / p, n % p;
    assert n == k * p + m;
    Distribute(k * p, m, d);
    MulAssoc(k, p, d);
  }

  /** The part below a word, and which half of it. */
  lemma {:induction false} BelowWord(m: nat, e: nat)
    requires e <= 63 && m < Pow2(64 - e)
    ensures 0 <= m * Pow2(e) < WORD
    ensures m < Pow2(63 - e) <==> m * Pow2(e) < 0x8000_0000_0000_0000
  {
    var word := 64;
    Pow2At(word);
    Pow2Bounds(word - 1);
    Pow2Add(word - e, e);
    Pow2Add(word - 1 - e, e);
    ScaledBelow(m, Pow2(word - e), Pow2(e));
    ScaledBelow(m, Pow2(word - 1 - e), Pow2(e));
  }

  lemma {:induction false} ScaledBelow(m: nat, bound: nat, d: nat)
    requires d > 0
    ensures 0 <= m * d && (m < bound <==> m * d < bound * d)
  {
    MulMonotone(0, m, d);
    if m < bound {
      MulMonotone(m + 1, bound, d);
      Distribute(m, 1, d);
    } else {
      MulMonotone(bound, m, d);
    }
  }

  /** The offset of a number is its twin's, less a word when the twin is not within reach. */
  lemma {:induction false} TwinProduct(pool: Prefix, prefixLen: int, n: nat)
    requires Shaped(pool, prefixLen) && !FitsInt64(pool, prefixLen) && StrideBits(pool, prefixLen) <= 63
    requires n < Count(pool, prefixLen)
    ensures var m, w := Twin(pool, prefixLen, n), Wrap64(n * Stride(pool, prefixLen));
            && m <= n
            && (m < Reach(pool, prefixLen) ==> w == m * Pow2(StrideBits(pool, prefixLen)))
            && (m >= Reach(pool, prefixLen) ==> w < 0)
  {
    var e := StrideBits(pool, prefixLen);
    var m := Twin(pool, prefixLen, n);
    RemainderAtMost(n, Pow2(64 - e));
    WrapsLikeTrue(pool, prefixLen, n);
    WholeWords(n, e);
    BelowWord(m, e);
    WrapShift(m * Pow2(e), n / Pow2(64 - e));
    WrapWord(m * Pow2(e));
  }

  lemma {:induction false} RemainderAtMost(n: nat, d: nat)
    requires d > 0
    ensures n % d <= n
  {
    MulMonotone(0, n / d, d);
  }

  // ---------------------------------------------------------- from subnet to number

  /** The largest legal offset is one the panel is willing to measure. */
  predicate Invertible(pool: Prefix, prefixLen: int)
    requires Shaped(pool, prefixLen)
  {
    && StrideBits(pool, prefixLen) <= 63
    && (Count(pool, prefixLen) - 1) * Pow2(StrideBits(pool, prefixLen)) <= 0x4000_0000_0000_0000
  }

  /** IPv4 always qualifies, and so does any shape spanning at most 62 bits. */
  lemma {:induction false} InvertibleShapes(pool: Prefix, prefixLen: int)
    requires Shaped(pool, prefixLen)
    requires CountBits(pool, prefixLen) + StrideBits(pool, prefixLen) <= 62
    ensures Invertible(pool, prefixLen)
  {
    var c, e := CountBits(pool, prefixLen), StrideBits(pool, prefixLen);
    CountTimesStride(pool, prefixLen);
    Pow2Bounds(c + e);
  }

  lemma {:induction false} InvertibleFits(pool: Prefix, prefixLen: int)
    requires Shaped(pool, prefixLen) && Invertible(pool, prefixLen)
    ensures FitsInt64(pool, prefixLen)
  {
    var c, e := CountBits(pool, prefixLen), StrideBits(pool, prefixLen);
    CountTimesStride(pool, prefixLen);
    Pow2Bounds(c + e);
    Pow2Bounds(e);
  }

  /** Adding an in-pool offset of at most 2^62 leaves the high 64 bits alone. */
  lemma {:induction false} SameHighHalf(pool: Prefix, off: nat)
    requires pool.IsValid() && pool.IsMasked() && off < pool.Size() && off <= 0x4000_0000_0000_0000
    ensures (pool.addr.v + off) / WORD == pool.addr.v / WORD
  {
    var k, word := BitLen(pool.addr.is4) - pool.bits, 64;
    Pow2At(word);
    if k >= word {
      MultipleOfPow(pool.addr.v, k, word);
      BlockOffset(pool.addr.v, off, WORD);
    } else {
      Pow2Add(word - k, k);
      NestedBlockOffset(pool.addr.v, off, pool.Size(), Pow2(word - k));
    }
  }

  /** Measuring an in-pool offset gives it back exactly when it is at most 2^62. */
  lemma {:induction false} GapOfOffset(pool: Prefix, off: nat)
    requires pool.IsValid() && pool.IsMasked() && off < pool.Size()
    requires pool.addr.v + off < Pow2(BitLen(pool.addr.is4))
    ensures Gap(pool.addr, RawAddr(pool.addr.is4, pool.addr.v + off))
            == if off <= 0x4000_0000_0000_0000 then Some(off) else None
  {
    if off <= 0x4000_0000_0000_0000 {
      SameHighHalf(pool, off);
    } else if pool.addr.is4 {
      Pow2At(BitLen(true));
      assert false;
    }
  }

  lemma {:induction false} RoundTrip(pool: Prefix, prefixLen: int, n: nat) returns (subnet: Prefix)
    requires Shaped(pool, prefixLen) && pool.IsMasked() && Invertible(pool, prefixLen)
    requires Legal(pool, prefixLen, n)
    ensures SubnetForNumber(pool, prefixLen, n) == Ok(subnet) && subnet.IsValid()
    ensures NumberForSubnet(pool, subnet) == Some(n)
  {
    WithinReach(pool, prefixLen, n);
    subnet := SubnetExact(pool, prefixLen, n);
    OffsetMeasured(pool, prefixLen, n);
    StridesCounted(pool, prefixLen, n);
    NumberFromGap(pool, subnet, n * Pow2(StrideBits(pool, prefixLen)));
  }

  lemma {:induction false} WithinReach(pool: Prefix, prefixLen: int, n: nat)
    requires Shaped(pool, prefixLen) && Invertible(pool, prefixLen) && Legal(pool, prefixLen, n)
    ensures n < Reach(pool, prefixLen)
  {
    InvertibleFits(pool, prefixLen);
  }

  /** A legal offset of an invertible shape is in the pool and is measured as it is. */
  lemma {:induction false} OffsetMeasured(pool: Prefix, prefixLen: int, n: nat)
    requires Shaped(pool, prefixLen) && pool.IsMasked() && Invertible(pool, prefixLen)
    requires Legal(pool, prefixLen, n)
    ensures var off := n * Pow2(StrideBits(pool, prefixLen));
            && off >= 0 && pool.addr.v + off < Pow2(BitLen(pool.addr.is4))
            && pool.Contains(RawAddr(pool.addr.is4, pool.addr.v + off))
            && Gap(pool.addr, RawAddr(pool.addr.is4, pool.addr.v + off)) == Some(off)
  {
    var d := Pow2(StrideBits(pool, prefixLen));
    OffsetInside(pool, prefixLen, n);
    RoomAbove(pool);
    ContainsOffset(pool, n * d);
    MulMonotone(n, Count(pool, prefixLen) - 1, d);
    GapOfOffset(pool, n * d);
  }

  lemma {:induction false} NumberFromGap(pool: Prefix, subnet: Prefix, off: nat)
    requires subnet.IsValid() && Shaped(pool, subnet.bits) && pool.Contains(subnet.addr)
    requires Gap(pool.addr, subnet.addr) == Some(off)
    ensures var stride := Stride(pool, subnet.bits);
            NumberForSubnet(pool, subnet) == if stride == 0 || off % stride != 0 then None else Some(Wrap64(off / stride))
  {
  }

  /** Dividing a legal offset by the stride counts the strides, even where the stride reads as -2^63. */
  lemma {:induction false} StridesCounted(pool: Prefix, prefixLen: int, n: nat)
    requires Shaped(pool, prefixLen) && Invertible(pool, prefixLen) && Legal(pool, prefixLen, n)
    ensures var off, stride := n * Pow2(StrideBits(pool, prefixLen)), Stride(pool, prefixLen);
            stride != 0 && off % stride == 0 && off / stride == n
  {
    var e := StrideBits(pool, prefixLen);
    ModZero(n, Pow2(e));
    if e <= 62 {
      StrideIsPow(pool, prefixLen);
    } else {
      MulMonotone(n, Count(pool, prefixLen) - 1, Pow2(e));
      Pow2Bounds(e);
      assert n == 0;
    }
  }

  ghost predicate ComesBack(pool: Prefix, prefixLen: int, n: int)
    requires Shaped(pool, prefixLen) && Legal(pool, prefixLen, n)
  {
    match SubnetForNumber(pool, prefixLen, n)
    case Ok(subnet) => subnet.IsValid() && NumberForSubnet(pool, subnet) == Some(n)
    case Err(_) => false
  }

  /** Every legal number comes back from its subnet exactly for invertible shapes. */
  lemma {:induction false} RoundTripIffInvertible(pool: Prefix, prefixLen: int)
    requires Shaped(pool, prefixLen) && pool.IsMasked()
    ensures Invertible(pool, prefixLen) <==>
            forall n | Legal(pool, prefixLen, n) :: ComesBack(pool, prefixLen, n)
  {
    CapacityIsCount(pool, prefixLen);
    var e := StrideBits(pool, prefixLen);
    var top := Count(pool, prefixLen) - 1;
    if Invertible(pool, prefixLen) {
      forall n | Legal(pool, prefixLen, n) ensures ComesBack(pool, prefixLen, n) {
        var _ := RoundTrip(pool, prefixLen, n);
      }
    } else if e >= 64 {
      Collapse(pool, prefixLen, 0);
      assert Legal(pool, prefixLen, 0) && !ComesBack(pool, prefixLen, 0);
    } else if !FitsInt64(pool, prefixLen) {
      var n := FirstWrapped(pool, prefixLen);
      assert Legal(pool, prefixLen, n) && !ComesBack(pool, prefixLen, n);
    } else {
      var subnet := SubnetExact(pool, prefixLen, top);
      OffsetInside(pool, prefixLen, top);
      GapOfOffset(pool, top * Pow2(e));
      assert Legal(pool, prefixLen, top) && !ComesBack(pool, prefixLen, top);
    }
  }

  /** What a measured gap says, and that it is small. */
  lemma {:induction false} GapLaw(from: Addr, to: Addr)
    requires Gap(from, to).Some?
    ensures from.is4 == to.is4
    ensures 0 <= Gap(from, to).value <= 0x4000_0000_0000_0000
    ensures to.v == from.v + Gap(from, to).value
  {
    Pow2At(BitLen(true));
  }

  /** An accepted offset is exactly the accepted number times the stride. */
  lemma {:induction false} StridesToOffset(pool: Prefix, prefixLen: int, offset: nat)
    requires Shaped(pool, prefixLen) && offset <= 0x4000_0000_0000_0000
    requires Stride(pool, prefixLen) != 0 && offset % Stride(pool, prefixLen) == 0
    ensures 0 <= offset / Stride(pool, prefixLen) <= offset
    ensures offset / Stride(pool, prefixLen) * Stride(pool, prefixLen) == offset
  {
    var e := StrideBits(pool, prefixLen);
    if e <= 62 {
      StrideIsPow(pool, prefixLen);
      ExactQuotient(offset, Pow2(e));
    } else {
      assert Stride(pool, prefixLen) == -0x8000_0000_0000_0000;
      assert offset % -0x8000_0000_0000_0000 == offset;
    }
  }

  /** Whatever in-range number an existing subnet is given, that number leads back to it. */
  lemma {:induction false} ImportedSubnetReproduced(pool: Prefix, subnet: Prefix, n: Int64)
    requires subnet.IsValid() && Shaped(pool, subnet.bits) && pool.IsMasked()
    requires NumberForSubnet(pool, subnet) == Some(n) && n < Count(pool, subnet.bits)
    ensures 0 <= n && SubnetForNumber(pool, subnet.bits, n) == Ok(subnet)
  {
    CapacityIsCount(pool, subnet.bits);
    GapLaw(pool.addr, subnet.addr);
    StridesToOffset(pool, subnet.bits, Gap(pool.addr, subnet.addr).value);
  }

  // ------------------------------------------------------------------ slot addresses

  /** The pair a tunnel uses: inside, in order, and clear of both ends where there is room. */
  lemma {:induction false} SlotLaw(subnet: Prefix)
    requires subnet.IsValid()
    ensures var net, len, r := subnet.Masked(), BitLen(subnet.addr.is4), SlotAddresses(subnet);
            && (subnet.bits == len <==> r.Err?)
            && (r.Ok? ==>
                  && net.Contains(r.value.0) && net.Contains(r.value.1)
                  && subnet.Contains(r.value.0) && subnet.Contains(r.value.1)
                  && r.value.0.v == net.addr.v + (if subnet.bits == len - 1 then 0 else 1)
                  && r.value.1.v == r.value.0.v + 1
                  && (subnet.bits == len - 1 ==>
                        r.value.0.v == net.addr.v && r.value.1.v == net.addr.v + net.Size() - 1)
                  && (subnet.bits < len - 1 ==>
                        net.addr.v < r.value.0.v && r.value.1.v < net.addr.v + net.Size() - 1))
  {
    var net := subnet.Masked();
    var s := BitLen(subnet.addr.is4) - subnet.bits;
    RoomAbove(net);
    QuotientUnique(subnet.addr.v / subnet.Size(), 0, subnet.Size());
    if s == 0 {
      assert net.Size() == 1;
    } else {
      assert Pow2(1) == 2 && Pow2(2) == 4;
      Pow2Monotone(if s == 1 then 1 else 2, s);
      ContainsOffset(net, 0);
      ContainsOffset(net, 1);
      if s >= 2 {
        ContainsOffset(net, 2);
      }
    }
  }

  /** The pair of a subnet held by its first address. */
  lemma {:induction false} SlotsOf(subnet: Prefix)
    requires subnet.IsValid() && subnet.IsMasked() && subnet.bits < BitLen(subnet.addr.is4)
    ensures var r := SlotAddresses(subnet);
            && r.Ok? && r.value.0.is4 == subnet.addr.is4 && r.value.1.is4 == subnet.addr.is4
            && r.value.0.v == subnet.addr.v + (if subnet.bits == BitLen(subnet.addr.is4) - 1 then 0 else 1)
            && r.value.1.v == r.value.0.v + 1
            && subnet.Contains(r.value.0) && subnet.Contains(r.value.1)
  {
    BlockOffset(subnet.addr.v, 0, subnet.Size());
    SlotLaw(subnet);
  }
}
