/** The allocator's arithmetic as it is carried out, on address bytes. */
module AllocBytes {
  import opened Basics
  import opened Powers
  import opened Bytes
  import opened Alloc

  function BeUint32(b: seq<Octet>): (v: nat)
    requires |b| == 4
    ensures v == BeValue(b)
  {
    assert b[..3][..2] == b[..2] && b[..2][..1] == b[..1] && b[..1][..0] == [];
    assert BeValue(b[..1]) == b[0];
    assert BeValue(b[..2]) == 256 * BeValue(b[..1]) + b[1];
    assert BeValue(b[..3]) == 256 * BeValue(b[..2]) + b[2];
    0x100_0000 * (b[0] as int) + 0x1_0000 * (b[1] as int) + 0x100 * (b[2] as int) + b[3]
  }

  function PutBeUint32(v: nat): (b: seq<Octet>)
    ensures b == BeBytes(v, 4)
  {
    assert v / 256 / 256 == v / 0x1_0000 && v / 256 / 256 / 256 == v / 0x100_0000;
    assert BeBytes(v / 256, 3) == BeBytes(v / 0x1_0000, 2) + [v / 0x100 % 256];
    assert BeBytes(v / 0x1_0000, 2) == BeBytes(v / 0x100_0000, 1) + [v / 0x1_0000 % 256];
    [v / 0x100_0000 % 256, v / 0x1_0000 % 256, v / 0x100 % 256, v % 256]
  }

  /** One turn of the loop: a byte absorbs the low byte of the carry, the rest moves up. */
  lemma {:induction false} AddByte(bytes: seq<Octet>, i: nat, carry: nat)
    requires i < |bytes|
    ensures var sum, w := bytes[i] + carry % 256, 8 * (|bytes| - 1 - i);
            BeValue(bytes[i := sum % 256]) + (carry / 256 + sum / 256) * Pow2(w + 8)
            == BeValue(bytes) + carry * Pow2(w)
  {
    var sum, w := bytes[i] + carry % 256, 8 * (|bytes| - 1 - i);
    var b, carry' := sum % 256, carry / 256 + sum / 256;
    BeValueUpdate(bytes, i, b);
    Pow2Byte(w);
    Regroup(carry', Pow2(w));
    MulAssoc(256, carry', Pow2(w));
    Distribute(b - bytes[i], 256 * carry', Pow2(w));
    assert b - bytes[i] + 256 * carry' == carry;
  }

  /** The byte-carry loop is addition, and it refuses exactly the sums that do not fit. */
  method AddOffset(addr: Addr, n: Int64) returns (r: Result<Addr, AllocError>)
    ensures r == Advance(addr, n)
  {
    if n < 0 {
      return Err(Backwards);
    }
    if addr.is4 {
      Pow2At(BitLen(true));
      BeValueOfBytes(addr.v, 4);
      var sum := BeUint32(BeBytes(addr.v, 4)) + n;
      if sum > 0xFFFF_FFFF {
        return Err(PastEnd);
      }
      BeValueOfBytes(sum, 4);
      return Ok(RawAddr(true, BeValue(PutBeUint32(sum))));
    }

    var as16 := BeBytes(addr.v, 16);
    BeValueOfBytes(addr.v, 16);
    var bytes := new Octet[16](k requires 0 <= k < 16 => as16[k]);
    assert bytes[..] == as16;
    var carry := AddBytes(bytes, n);
    BeValueBound(bytes[..]);
    if carry > 0 {
      MulGe(carry, Pow2(8 * bytes.Length));
      return Err(PastEnd);
    }
    return Ok(RawAddr(false, BeValue(bytes[..])));
  }

  /** Adds n into a big-endian buffer in place, returning what ran off the top. */
  method AddBytes(bytes: array<Octet>, n: nat) returns (carry: nat)
    modifies bytes
    ensures BeValue(bytes[..]) + carry * Pow2(8 * bytes.Length) == old(BeValue(bytes[..])) + n
  {
    carry := n;
    var i := bytes.Length - 1;
    while i >= 0 && carry > 0
      invariant -1 <= i < bytes.Length
      invariant BeValue(bytes[..]) + carry * Pow2(8 * (bytes.Length - 1 - i)) == old(BeValue(bytes[..])) + n
    {
      ghost var before := bytes[..];
      var sum := bytes[i] + carry % 256;
      AddByte(before, i, carry);
      bytes[i] := sum % 256;
      assert bytes[..] == before[i := sum % 256];
      carry := carry / 256 + sum / 256;
      i := i - 1;
    }
  }

  /** The byte comparison and subtraction measure exactly what Gap says. */
  method Distance(from: Addr, to: Addr) returns (r: Option<Int64>)
    ensures r == Gap(from, to)
  {
    if from.is4 != to.is4 {
      return None;
    }
    if from.is4 {
      Pow2At(BitLen(true));
      BeValueOfBytes(from.v, 4);
      BeValueOfBytes(to.v, 4);
      var a, b := BeUint32(BeBytes(from.v, 4)), BeUint32(BeBytes(to.v, 4));
      return if b < a then None else Some(b - a);
    }

    var fromBytes, toBytes := BeBytes(from.v, 16), BeBytes(to.v, 16);
    HalvesOf(from);
    HalvesOf(to);
    var i := 0;
    while i < 8
      invariant 0 <= i <= 8
      invariant fromBytes[..i] == toBytes[..i]
    {
      if fromBytes[i] != toBytes[i] {
        assert fromBytes[..8][i] != toBytes[..8][i];
        if from.v / WORD == to.v / WORD {
          BeValueInjective(fromBytes[..8], toBytes[..8]);
        }
        return None;
      }
      i := i + 1;
    }
    var a := LowHalf(fromBytes);
    var b := LowHalf(toBytes);
    if b < a || b - a > 0x4000_0000_0000_0000 {
      return None;
    }
    return Some(b - a);
  }

  method LowHalf(bytes: seq<Octet>) returns (a: nat)
    requires |bytes| == 16
    ensures a == BeValue(bytes[8..])
  {
    a := 0;
    for i := 8 to 16
      invariant a == BeValue(bytes[8..i])
    {
      assert bytes[8..i + 1][..i - 8] == bytes[8..i];
      a := 256 * a + bytes[i];
    }
    assert bytes[8..16] == bytes[8..];
  }

  lemma {:induction false} HalvesOf(a: Addr)
    requires !a.is4
    ensures a.v / WORD == BeValue(BeBytes(a.v, 16)[..8])
    ensures a.v % WORD == BeValue(BeBytes(a.v, 16)[8..])
  {
    Pow2At(8 * |BeBytes(a.v, 16)[8..]|);
    var s := BeBytes(a.v, 16);
    BeValueOfBytes(a.v, 16);
    assert s == s[..8] + s[8..];
    BeValueCut(s[..8], s[8..]);
  }
}
