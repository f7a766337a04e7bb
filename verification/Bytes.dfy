/** Big-endian byte strings and the numbers they denote. */
module Bytes {
  import opened Powers

  type Octet = x: int | 0 <= x < 256

  function BeValue(s: seq<Octet>): (v: nat)
  {
    if s == [] then 0 else 256 * BeValue(s[..|s| - 1]) + s[|s| - 1]
  }

  /** The low k bytes of v, most significant first. */
  function BeBytes(v: nat, k: nat): (s: seq<Octet>)
    ensures |s| == k
  {
    if k == 0 then [] else BeBytes(v / 256, k - 1) + [v % 256]
  }

  lemma {:induction false} BeValueBound(s: seq<Octet>)
    ensures BeValue(s) < Pow2(8 * |s|)
  {
    if s != [] {
      BeValueBound(s[..|s| - 1]);
      Pow2Byte(8 * (|s| - 1));
    }
  }

  lemma {:induction false} BeValueOfBytes(v: nat, k: nat)
    requires v < Pow2(8 * k)
    ensures BeValue(BeBytes(v, k)) == v
  {
    if k > 0 {
      Pow2Byte(8 * (k - 1));
      BeValueOfBytes(v / 256, k - 1);
      assert BeBytes(v, k)[..k - 1] == BeBytes(v / 256, k - 1);
    }
  }

  lemma {:induction false} BeValueInjective(s: seq<Octet>, t: seq<Octet>)
    requires |s| == |t| && BeValue(s) == BeValue(t)
    ensures s == t
  {
    if s != [] {
      var n := |s| - 1;
      assert s[n] == BeValue(s) % 256 && t[n] == BeValue(t) % 256;
      BeValueInjective(s[..n], t[..n]);
      assert s == s[..n] + [s[n]] && t == t[..n] + [t[n]];
    }
  }

  /** Replacing one byte moves the number by the byte's change at its weight. */
  lemma {:induction false} BeValueUpdate(s: seq<Octet>, i: nat, b: Octet)
    requires i < |s|
    ensures BeValue(s[i := b]) == BeValue(s) + (b - s[i]) * Pow2(8 * (|s| - 1 - i))
  {
    var n := |s| - 1;
    var t := s[i := b];
    if i == n {
      assert t[..n] == s[..n];
    } else {
      BeValueUpdate(s[..n], i, b);
      assert t[..n] == s[..n][i := b];
      Pow2Byte(8 * (n - 1 - i));
      Regroup(b - s[i], Pow2(8 * (n - 1 - i)));
    }
  }

  lemma {:induction false} BeValueSplit(s: seq<Octet>, t: seq<Octet>)
    ensures BeValue(s + t) == BeValue(s) * Pow2(8 * |t|) + BeValue(t)
  {
    if t == [] {
      assert s + t == s;
    } else {
      var n := |t| - 1;
      var hi, w := BeValue(s), Pow2(8 * n);
      assert BeValue(s + t[..n]) == hi * w + BeValue(t[..n]) by {
        BeValueSplit(s, t[..n]);
      }
      assert (s + t)[..|s| + n] == s + t[..n] && (s + t)[|s| + n] == t[n];
      Pow2Byte(8 * n);
      Regroup(hi, w);
    }
  }

  lemma {:induction false} Regroup(hi: int, w: int)
    ensures 256 * (hi * w) == hi * (256 * w)
  {
  }

  /** Cutting a byte string in two is dividing by the weight of the cut. */
  lemma {:induction false} BeValueCut(s: seq<Octet>, t: seq<Octet>)
    ensures BeValue(s + t) / Pow2(8 * |t|) == BeValue(s)
    ensures BeValue(s + t) % Pow2(8 * |t|) == BeValue(t)
  {
    BeValueSplit(s, t);
    BeValueBound(t);
    QuotientUnique(BeValue(s), BeValue(t), Pow2(8 * |t|));
  }
}
