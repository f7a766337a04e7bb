/** Address pools: how a tunnel number becomes a subnet and back. */
module Alloc {
  import opened Basics
  import opened Powers

  /** A 64-bit signed integer, as the allocator's counters are. */
  type Int64 = x: int | -0x8000_0000_0000_0000 <= x < 0x8000_0000_0000_0000

  /** Two's complement reduction of an exact result to 64 bits. */
  function Wrap64(x: int): (r: Int64)
    ensures -0x8000_0000_0000_0000 <= x < 0x8000_0000_0000_0000 ==> r == x
  {
    (x + 0x8000_0000_0000_0000) % 0x1_0000_0000_0000_0000 - 0x8000_0000_0000_0000
  }

  /** int64(1) << k: the bit becomes the sign at 63 and falls off the top after that. */
  function ShiftOne(k: nat): (r: Int64)
    ensures k <= 62 ==> r == Pow2(k)
    ensures k == 63 ==> r == -0x8000_0000_0000_0000
    ensures k >= 64 ==> r == 0
  {
    Pow2Bounds(k);
    if k >= 64 then 0 else Wrap64(Pow2(k))
  }

  function BitLen(is4: bool): nat { if is4 then 32 else 128 }

  datatype RawAddr = RawAddr(is4: bool, v: nat)

  /** A zone-free IPv4 or IPv6 address, held as its number. */
  type Addr = a: RawAddr | a.v < Pow2(BitLen(a.is4)) witness RawAddr(true, 0)

  /** A range; the bit count is whatever was parsed, so validity is a question. */
  datatype Prefix = Prefix(addr: Addr, bits: int) {
    predicate IsValid() { 0 <= bits <= BitLen(addr.is4) }

    /** Addresses in a range with this many network bits. */
    function Size(): (n: nat)
      requires IsValid()
      ensures n > 0
    { Pow2(BitLen(addr.is4) - bits) }

    predicate Contains(a: Addr)
    { IsValid() && a.is4 == addr.is4 && a.v / Size() == addr.v / Size() }

    predicate IsMasked()
      requires IsValid()
    { addr.v % Size() == 0 }

    function Masked(): (p: Prefix)
      requires IsValid()
      ensures p.IsValid() && p.IsMasked() && p.bits == bits && p.addr.is4 == addr.is4
      ensures p.addr.v <= addr.v < p.addr.v + Size()
    {
      var d := Size();
      RoundDown(addr.v, d);
      Prefix(RawAddr(addr.is4, addr.v / d * d), bits)
    }
  }

  datatype Scheme = Octet | Dense

  datatype AllocError = BadPool | SubnetTooLarge | LengthOutOfRange | TooFewAddresses
                      | NumberDoesNotFit(max: int) | Backwards | PastEnd | OutsidePool
                      | TooSmall | Exhausted(capacity: int)

  const OCTET_STRIDE: Int64 := 256

  function SchemeFor(pool: Prefix, prefixLen: int): Scheme {
    if pool.addr.is4 && pool.bits < 24 && prefixLen >= 24 then Octet else Dense
  }

  function CheckShape(pool: Prefix, prefixLen: int): Option<AllocError> {
    if !pool.IsValid() then Some(BadPool)
    else if prefixLen < pool.bits then Some(SubnetTooLarge)
    else if prefixLen > BitLen(pool.addr.is4) then Some(LengthOutOfRange)
    else if pool.addr.is4 && prefixLen > 31 then Some(TooFewAddresses)
    else if !pool.addr.is4 && prefixLen > 127 then Some(TooFewAddresses)
    else None
  }

  predicate Shaped(pool: Prefix, prefixLen: int) { CheckShape(pool, prefixLen) == None }

  function Capacity(pool: Prefix, prefixLen: int): Result<Int64, AllocError> {
    match CheckShape(pool, prefixLen)
    case Some(e) => Err(e)
    case None =>
      if SchemeFor(pool, prefixLen) == Octet then Ok(ShiftOne(24 - pool.bits))
      else
        var span := prefixLen - pool.bits;
        Ok(ShiftOne(if span > 24 then 24 else span))
  }

  function MaxNumber(pool: Prefix, prefixLen: int): Result<Int64, AllocError> {
    match Capacity(pool, prefixLen)
    case Err(e) => Err(e)
    case Ok(c) => Ok(Wrap64(c - 1))
  }

  /** Moving an address forward: the number grows by n or the move is refused. */
  function Advance(addr: Addr, n: Int64): Result<Addr, AllocError> {
    if n < 0 then Err(Backwards)
    else if addr.v + n >= Pow2(BitLen(addr.is4)) then Err(PastEnd)
    else Ok(RawAddr(addr.is4, addr.v + n))
  }

  /** How far apart two addresses are, where the panel is willing to say. */
  function Gap(from: Addr, to: Addr): Option<Int64> {
    if from.is4 != to.is4 then None
    else if to.v < from.v then None
    else if from.is4 then
      Pow2At(BitLen(true));
      Some(to.v - from.v)
    else if from.v / WORD != to.v / WORD || to.v - from.v > 0x4000_0000_0000_0000 then None
    else Some(to.v - from.v)
  }

  function Stride(pool: Prefix, prefixLen: int): Int64
    requires prefixLen <= BitLen(pool.addr.is4)
  {
    if SchemeFor(pool, prefixLen) == Octet then OCTET_STRIDE
    else ShiftOne(BitLen(pool.addr.is4) - prefixLen)
  }

  function SubnetForNumber(pool: Prefix, prefixLen: int, number: Int64): Result<Prefix, AllocError> {
    match CheckShape(pool, prefixLen)
    case Some(e) => Err(e)
    case None =>
      match MaxNumber(pool, prefixLen)
      case Err(e) => Err(e)
      case Ok(max) =>
        if number < 0 || number > max then Err(NumberDoesNotFit(max))
        else
          match Advance(pool.addr, Wrap64(number * Stride(pool, prefixLen)))
          case Err(e) => Err(e)
          case Ok(base) =>
            if !pool.Contains(base) then Err(OutsidePool) else Ok(Prefix(base, prefixLen))
  }

  /** Go truncates and Dafny floors; the offset is never negative, where they agree. */
  function NumberForSubnet(pool: Prefix, subnet: Prefix): Option<Int64>
    requires subnet.IsValid()
  {
    if !pool.Contains(subnet.addr) then None
    else
      match Gap(pool.addr, subnet.addr)
      case None => None
      case Some(offset) =>
        var stride := Stride(pool, subnet.bits);
        if stride == 0 || offset % stride != 0 then None
        else Some(Wrap64(offset / stride))
  }

  function SlotAddresses(subnet: Prefix): Result<(Addr, Addr), AllocError>
    requires subnet.IsValid()
  {
    var net := subnet.Masked();
    var offset := if net.bits == (if net.addr.is4 then 31 else 127) then 0 else 1;
    match Advance(net.addr, offset)
    case Err(e) => Err(e)
    case Ok(a) =>
      match Advance(net.addr, offset + 1)
      case Err(e) => Err(e)
      case Ok(b) =>
        if !net.Contains(a) || !net.Contains(b) then Err(TooSmall) else Ok((a, b))
  }

  // ------------------------------------------------------------- exact arithmetic

  /** The stride as a power of two, which the two schemes share. */
  function StrideBits(pool: Prefix, prefixLen: int): (e: nat)
    requires Shaped(pool, prefixLen)
  {
    if SchemeFor(pool, prefixLen) == Octet then 8 else BitLen(pool.addr.is4) - prefixLen
  }

  /** The capacity as a power of two. */
  function CountBits(pool: Prefix, prefixLen: int): (c: nat)
    requires Shaped(pool, prefixLen)
    ensures c <= 24
  {
    if SchemeFor(pool, prefixLen) == Octet then 24 - pool.bits
    else if prefixLen - pool.bits > 24 then 24 else prefixLen - pool.bits
  }

  /** Numbers run below this. */
  function Count(pool: Prefix, prefixLen: int): (n: nat)
    requires Shaped(pool, prefixLen)
  { Pow2(CountBits(pool, prefixLen)) }

  /** number * stride is exact in 64 bits for every legal number. */
  predicate FitsInt64(pool: Prefix, prefixLen: int)
    requires Shaped(pool, prefixLen)
  {
    CountBits(pool, prefixLen) == 0 || CountBits(pool, prefixLen) + StrideBits(pool, prefixLen) <= 63
  }

  /** How many numbers get a subnet no lower number has: all of them where the product fits;
      otherwise as many as fit below 2^63, and one where the stride is lost altogether. */
  function Reach(pool: Prefix, prefixLen: int): (n: nat)
    requires Shaped(pool, prefixLen)
  {
    if FitsInt64(pool, prefixLen) then Count(pool, prefixLen)
    else if StrideBits(pool, prefixLen) <= 63 then Pow2(63 - StrideBits(pool, prefixLen))
    else 1
  }

  lemma {:induction false} ReachWithin(pool: Prefix, prefixLen: int)
    requires Shaped(pool, prefixLen)
    ensures 1 <= Reach(pool, prefixLen) <= Count(pool, prefixLen)
    ensures Reach(pool, prefixLen) == Count(pool, prefixLen) <==> FitsInt64(pool, prefixLen)
  {
    var c, e := CountBits(pool, prefixLen), StrideBits(pool, prefixLen);
    if !FitsInt64(pool, prefixLen) {
      Pow2Strict(if e <= 63 then 63 - e else 0, c);
    }
  }

  lemma {:induction false} CapacityIsCount(pool: Prefix, prefixLen: int)
    requires Shaped(pool, prefixLen)
    ensures Capacity(pool, prefixLen) == Ok(Count(pool, prefixLen))
    ensures MaxNumber(pool, prefixLen) == Ok(Count(pool, prefixLen) - 1)
  {
    Pow2Bounds(CountBits(pool, prefixLen));
  }

  /** The cap on the reported capacity is an IPv6 matter only, and IPv4 always fits. */
  lemma {:induction false} V4NeverCappedNorWrapped(pool: Prefix, prefixLen: int)
    requires Shaped(pool, prefixLen) && pool.addr.is4
    ensures SchemeFor(pool, prefixLen) == Dense ==> CountBits(pool, prefixLen) == prefixLen - pool.bits
    ensures CountBits(pool, prefixLen) + StrideBits(pool, prefixLen) <= 32
    ensures FitsInt64(pool, prefixLen)
  {
  }
}
