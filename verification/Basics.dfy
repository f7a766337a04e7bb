/** Shared vocabulary: outcomes, fixed-width integers and powers of two. */
module Basics {

  datatype Option<+T> = None | Some(value: T)

  datatype Result<+T, +E> = Ok(value: T) | Err(error: E)
}

/** Time in nanoseconds, and the whole milliseconds a stored timestamp keeps of it. */
module Timestamps {

  type Time = int

  const MILLISECOND := 1_000_000
  const MINUTE := 60_000_000_000

  function Stamp(t: Time): Time { t - t % MILLISECOND }

  predicate IsStamp(t: Time) { t % MILLISECOND == 0 }

  /** Against a stored timestamp it does not matter whether the clock is rounded too. */
  lemma {:induction false} StampCompare(stored: Time, now: Time)
    requires IsStamp(stored)
    ensures stored > Stamp(now) <==> stored > now
    ensures IsStamp(Stamp(now)) && Stamp(now) <= now < Stamp(now) + 1_000_000
  {
  }
}

module Powers {

  const WORD := 0x1_0000_0000_0000_0000

  function Pow2(e: nat): (p: nat)
    ensures p > 0
  {
    if e == 0 then 1 else 2 * Pow2(e - 1)
  }

  lemma {:induction false} Pow2Add(a: nat, b: nat)
    ensures Pow2(a + b) == Pow2(a) * Pow2(b)
  {
    if a > 0 {
      Pow2Add(a - 1, b);
      assert Pow2(a + b) == 2 * Pow2(a - 1 + b);
      assert 2 * (Pow2(a - 1) * Pow2(b)) == (2 * Pow2(a - 1)) * Pow2(b);
    }
  }

  lemma {:induction false} Pow2Monotone(a: nat, b: nat)
    requires a <= b
    ensures Pow2(a) <= Pow2(b)
    decreases b
  {
    if a < b {
      Pow2Monotone(a, b - 1);
    }
  }

  lemma {:induction false} Pow2Strict(a: nat, b: nat)
    requires a < b
    ensures 2 * Pow2(a) <= Pow2(b)
  {
    Pow2Monotone(a, b - 1);
  }

  lemma {:induction false} Pow2Byte(e: nat)
    ensures Pow2(e + 8) == 256 * Pow2(e)
  {
    Pow2Add(e, 8);
    assert Pow2(8) == 256;
  }

  /** The powers the code's constants are; k is a variable so that nothing unfolds 64 deep. */
  lemma {:induction false} Pow2At(k: nat)
    ensures k == 8 ==> Pow2(k) == 0x100
    ensures k == 16 ==> Pow2(k) == 0x1_0000
    ensures k == 32 ==> Pow2(k) == 0x1_0000_0000
    ensures k == 64 ==> Pow2(k) == WORD
  {
    if k == 16 || k == 32 || k == 64 {
      Pow2At(k / 2);
      Pow2Add(k / 2, k / 2);
    } else if k == 8 {
      assert Pow2(8) == 0x100;
    }
  }

  /** Where a power of two stands against the 64-bit limits. */
  lemma {:induction false} Pow2Bounds(k: nat)
    ensures k <= 62 ==> Pow2(k) <= 0x4000_0000_0000_0000
    ensures k <= 63 ==> Pow2(k) <= 0x8000_0000_0000_0000
    ensures k >= 64 ==> Pow2(k) >= WORD
    ensures k == 62 ==> Pow2(k) == 0x4000_0000_0000_0000
    ensures k == 63 ==> Pow2(k) == 0x8000_0000_0000_0000
  {
    var w: nat := 64;
    Pow2At(w);
    assert Pow2(w) == 2 * Pow2(w - 1) && Pow2(w - 1) == 2 * Pow2(w - 2);
    if k <= 62 {
      Pow2Monotone(k, w - 2);
    } else if k >= 64 {
      Pow2Monotone(w, k);
    }
  }

  lemma {:induction false} SmallMultiple(k: int, d: int)
    requires d > 0 && -d < k * d < d
    ensures k == 0
  {
    if k > 0 {
      MulMonotone(1, k, d);
    } else if k < 0 {
      MulMonotone(k, -1, d);
    }
  }

  lemma {:induction false} QuotientUnique(q: int, r: int, d: int)
    requires 0 <= r < d
    ensures (q * d + r) / d == q
    ensures (q * d + r) % d == r
  {
    var x := q * d + r;
    var k := x / d - q;
    assert k * d == (x / d) * d - q * d;
    SmallMultiple(k, d);
  }

  lemma {:induction false} MulGe(k: int, d: int)
    requires k >= 1 && d >= 0
    ensures k * d >= d
  {
  }

  lemma {:induction false} MulMonotone(a: int, b: int, d: int)
    requires a <= b && d >= 0
    ensures a * d <= b * d
  {
  }

  lemma {:induction false} MulAssoc(a: int, b: int, c: int)
    ensures a * (b * c) == (a * b) * c
  {
  }

  /** Inside one aligned block, dividing by the block size does not see the offset. */
  lemma {:induction false} BlockOffset(v: int, off: int, h: int)
    requires h > 0 && v % h == 0 && 0 <= off < h
    ensures (v + off) / h == v / h
    ensures (v / h) * h == v
  {
    QuotientUnique(v / h, off, h);
  }

  /** The same, for a larger block made of whole smaller ones. */
  lemma {:induction false} NestedBlockOffset(v: int, off: int, h: int, w: int)
    requires h > 0 && w > 0 && v % h == 0 && 0 <= off < h
    ensures w * h > 0 && (v + off) / (w * h) == v / (w * h)
  {
    var q := v / h;
    var t, u := q % w, q / w;
    MulMonotone(1, w, h);
    Distribute(u * w, t, h);
    MulAssoc(u, w, h);
    MulMonotone(t + 1, w, h);
    Distribute(t, 1, h);
    MulMonotone(0, t, h);
    assert v == u * (w * h) + t * h;
    QuotientUnique(u, t * h + off, w * h);
    QuotientUnique(u, t * h, w * h);
  }

  lemma {:induction false} Distribute(a: int, b: int, c: int)
    ensures (a + b) * c == a * c + b * c
  {
  }

  /** Rounding down to a multiple. */
  lemma {:induction false} RoundDown(x: nat, d: int)
    requires d > 0
    ensures 0 <= x / d * d <= x < x / d * d + d && (x / d * d) % d == 0
  {
    QuotientUnique(x / d, 0, d);
    MulMonotone(0, x / d, d);
  }

  /** An exact quotient gives the number back and is no larger than it. */
  lemma {:induction false} ExactQuotient(x: nat, d: int)
    requires d > 0 && x % d == 0
    ensures x / d * d == x && 0 <= x / d <= x
  {
    MulMonotone(1, d, x / d);
  }

  /** The last aligned block below a bound made of whole blocks ends at or below it. */
  lemma {:induction false} LastBlock(v: int, h: int, w: int)
    requires h > 0 && v % h == 0 && v < w * h
    ensures v + h <= w * h
  {
    var q := v / h;
    assert v == q * h;
    if q >= w {
      MulMonotone(w, q, h);
    }
    MulMonotone(q + 1, w, h);
    assert (q + 1) * h == q * h + h;
  }
}
