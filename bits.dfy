/** Bit strings as the coders see them: values read least- or most-significant
    bit first, fixed-width binary (`bin(v)[2:].zfill(w)`), Hamming weight,
    single-bit flips, dot products over GF(2) (XOR of ANDs) and Python's
    slice `s[lo:hi]`. A bit is a `bool`: `true` is 1. */
module Bits {

  function Pow2(e: nat): (r: nat)
    ensures r >= 1
  {
    if e == 0 then 1 else 2 * Pow2(e - 1)
  }

  /** The powers of two the coders' widths use. */
  lemma Pow2Table()
    ensures Pow2(1) == 2 && Pow2(2) == 4 && Pow2(3) == 8 && Pow2(4) == 16 && Pow2(5) == 32
  {
    assert Pow2(1) == 2;
    assert Pow2(2) == 4;
    assert Pow2(3) == 8;
    assert Pow2(4) == 16;
  }

  lemma {:induction false} Pow2Mono(a: nat, b: nat)
    requires a <= b
    ensures Pow2(a) <= Pow2(b)
    decreases b
  {
    if a < b {
      Pow2Mono(a, b - 1);
    }
  }

  function Max(a: int, b: int): int { if a < b then b else a }

  function Min(a: int, b: int): int { if a < b then a else b }

  function ToNat(b: bool): nat { if b then 1 else 0 }

  /** Bit i of v, bit 0 being the least significant: `v & (1 << i) != 0`. */
  function Bit(v: nat, i: nat): bool
  {
    if i == 0 then v % 2 == 1 else Bit(v / 2, i - 1)
  }

  function Zeros(n: nat): seq<bool> { seq(n, _ => false) }

  /** The n-bit vector whose only 1 is at position t (a column of an identity matrix). */
  function Unit(n: nat, t: nat): seq<bool> { seq(n, i => i == t) }

  function Flip(s: seq<bool>, p: nat): seq<bool>
    requires p < |s|
  {
    s[p := !s[p]]
  }

  /** Number of 1 bits: `sum(1 for bit in s if bit != 0)`. */
  function Weight(s: seq<bool>): nat
  {
    if s == [] then 0 else ToNat(s[0]) + Weight(s[1..])
  }

  /** Pointwise XOR (addition over GF(2)). */
  function Xor(a: seq<bool>, b: seq<bool>): seq<bool>
    requires |a| == |b|
  {
    seq(|a|, i requires 0 <= i < |a| => a[i] != b[i])
  }

  /** Dot product over GF(2): XOR over i of a[i] AND b[i]. */
  function Dot(a: seq<bool>, b: seq<bool>): bool
    requires |a| == |b|
  {
    if a == [] then false else (a[0] && b[0]) != Dot(a[1..], b[1..])
  }

  /** Value of s read least significant bit first: sum of 2^i for every set s[i]. */
  function LsbValue(s: seq<bool>): nat
  {
    if s == [] then 0 else ToNat(s[0]) + 2 * LsbValue(s[1..])
  }

  /** The w low bits of v, least significant first. */
  function LsbBits(v: nat, w: nat): seq<bool> { seq(w, i requires 0 <= i < w => Bit(v, i)) }

  /** Value of s read most significant bit first: `int(''.join(map(str, s)), 2)` (0 for an empty s). */
  function MsbValue(s: seq<bool>): nat
  {
    if s == [] then 0 else 2 * MsbValue(s[..|s| - 1]) + ToNat(s[|s| - 1])
  }

  /** The w low bits of v, most significant first. */
  function MsbBits(v: nat, w: nat): (r: seq<bool>)
    ensures |r| == w
  {
    if w == 0 then [] else MsbBits(v / 2, w - 1) + [v % 2 == 1]
  }

  /** Number of characters of `bin(v)[2:]` (one digit for 0). */
  function Digits(v: nat): nat
  {
    if v < 2 then 1 else 1 + Digits(v / 2)
  }

  /** `bin(v)[2:].zfill(w)` as bits: w bits when v fits, all of v's digits when it does not. */
  function BinZfill(v: nat, w: nat): seq<bool>
  {
    MsbBits(v, Max(w, Digits(v)))
  }

  /** Python's index normalisation for slices: negative counts from the end, then clamp to 0..len. */
  function SliceIndex(x: int, len: nat): (r: nat)
    ensures r <= len
  {
    var y := if x < 0 then x + len else x;
    if y < 0 then 0 else if y > len then len else y
  }

  /** Python's `s[lo:hi]`. */
  function Slice<T>(s: seq<T>, lo: int, hi: int): seq<T>
  {
    var a := SliceIndex(lo, |s|);
    var b := SliceIndex(hi, |s|);
    if a < b then s[a..b] else []
  }

  // ---------------------------------------------------------------- values

  lemma {:induction false} LsbValueBound(s: seq<bool>)
    ensures LsbValue(s) < Pow2(|s|)
  {
    if s != [] {
      LsbValueBound(s[1..]);
    }
  }

  lemma {:induction false} LsbRoundTrip(v: nat, w: nat)
    requires v < Pow2(w)
    ensures LsbValue(LsbBits(v, w)) == v
  {
    if w > 0 {
      var s := LsbBits(v, w);
      assert s[1..] == LsbBits(v / 2, w - 1);
      LsbRoundTrip(v / 2, w - 1);
    }
  }

  /** A bit string is the binary of its own value: the LSB-first reading is injective. */
  lemma {:induction false} LsbBitsOfValue(s: seq<bool>)
    ensures LsbBits(LsbValue(s), |s|) == s
  {
    if s != [] {
      LsbBitsOfValue(s[1..]);
      var v := LsbValue(s);
      assert v / 2 == LsbValue(s[1..]);
      forall i | 0 <= i < |s|
        ensures Bit(v, i) == s[i]
      {
        if i > 0 {
          assert Bit(v, i) == Bit(v / 2, i - 1) == LsbBits(LsbValue(s[1..]), |s| - 1)[i - 1];
        }
      }
    }
  }

  lemma {:induction false} LsbValueZero(s: seq<bool>)
    ensures LsbValue(s) == 0 <==> Weight(s) == 0
    ensures Weight(s) == 0 <==> s == Zeros(|s|)
  {
    if s != [] {
      LsbValueZero(s[1..]);
      assert s == [s[0]] + s[1..];
    }
  }

  lemma {:induction false} LsbUnit(n: nat, t: nat)
    requires t < n
    ensures LsbValue(Unit(n, t)) == Pow2(t)
  {
    var u := Unit(n, t);
    if t == 0 {
      assert u[1..] == Zeros(n - 1);
      LsbValueZero(u[1..]);
    } else {
      assert u[1..] == Unit(n - 1, t - 1);
      LsbUnit(n - 1, t - 1);
    }
  }

  /** Flipping bit t adds or removes 2^t. */
  lemma {:induction false} LsbFlip(s: seq<bool>, t: nat)
    requires t < |s|
    ensures LsbValue(Flip(s, t)) == if s[t] then LsbValue(s) - Pow2(t) else LsbValue(s) + Pow2(t)
  {
    if t > 0 {
      assert Flip(s, t)[1..] == Flip(s[1..], t - 1);
      LsbFlip(s[1..], t - 1);
    }
  }

  lemma {:induction false} MsbValueBound(s: seq<bool>)
    ensures MsbValue(s) < Pow2(|s|)
  {
    if s != [] {
      MsbValueBound(s[..|s| - 1]);
    }
  }

  /** Dropping the lowest bit of a w-bit value leaves a (w-1)-bit value. */
  lemma Halve(v: nat, w: nat)
    requires 0 < w && v < Pow2(w)
    ensures v / 2 < Pow2(w - 1)
  {
  }

  /** Appending a bit doubles the MSB-first value and adds the bit. */
  lemma MsbValueSnoc(s: seq<bool>, b: bool)
    ensures MsbValue(s + [b]) == 2 * MsbValue(s) + ToNat(b)
  {
    assert (s + [b])[..|s|] == s;
  }

  /** Bits reading v / 2, followed by v's lowest bit, read v. */
  lemma MsbStep(v: nat, high: seq<bool>)
    requires MsbValue(high) == v / 2
    ensures MsbValue(high + [v % 2 == 1]) == v
  {
    MsbValueSnoc(high, v % 2 == 1);
  }

  lemma {:induction false} MsbRoundTrip(v: nat, w: nat)
    requires v < Pow2(w)
    ensures MsbValue(MsbBits(v, w)) == v
  {
    if w > 0 {
      Halve(v, w);
      MsbRoundTrip(v / 2, w - 1);
      MsbStep(v, MsbBits(v / 2, w - 1));
    }
  }

  lemma {:induction false} MsbBitsZero(n: nat)
    ensures MsbBits(0, n) == Zeros(n)
  {
    if n > 0 {
      MsbBitsZero(n - 1);
      assert Zeros(n - 1) + [false] == Zeros(n);
    }
  }

  /** A bit string is the binary of its own value: the MSB-first reading is injective. */
  lemma {:induction false} MsbBitsOfValue(s: seq<bool>)
    ensures MsbBits(MsbValue(s), |s|) == s
  {
    if s != [] {
      var init := s[..|s| - 1];
      MsbBitsOfValue(init);
      assert MsbValue(s) / 2 == MsbValue(init);
      assert s == init + [s[|s| - 1]];
    }
  }

  /** Flipping bit p of s changes its MSB-first value by 2^(|s|-1-p): down when
      the bit was set, up when it was clear. */
  lemma {:induction false} MsbFlip(s: seq<bool>, p: nat)
    requires p < |s|
    ensures s[p] ==> MsbValue(Flip(s, p)) + Pow2(|s| - 1 - p) == MsbValue(s)
    ensures !s[p] ==> MsbValue(Flip(s, p)) == MsbValue(s) + Pow2(|s| - 1 - p)
    decreases |s|
  {
    var init, b := s[..|s| - 1], s[|s| - 1];
    assert s == init + [b];
    MsbValueSnoc(init, b);
    if p == |s| - 1 {
      assert Flip(s, p) == init + [!b];
      MsbValueSnoc(init, !b);
    } else {
      assert Flip(s, p) == Flip(init, p) + [b];
      MsbValueSnoc(Flip(init, p), b);
      MsbFlip(init, p);
      assert Pow2(|s| - 1 - p) == 2 * Pow2(|init| - 1 - p);
    }
  }

  lemma {:induction false} MsbValueZeros(n: nat)
    ensures MsbValue(Zeros(n)) == 0
  {
    if n > 0 {
      assert Zeros(n)[..n - 1] == Zeros(n - 1);
      MsbValueZeros(n - 1);
    }
  }

  /** The MSB-first value is 0 exactly when no bit is set. */
  lemma MsbValueZero(s: seq<bool>)
    ensures MsbValue(s) == 0 <==> Weight(s) == 0
  {
    LsbValueZero(s);
    MsbValueZeros(|s|);
    if MsbValue(s) == 0 {
      MsbBitsOfValue(s);
      MsbBitsZero(|s|);
    }
  }

  /** Read most significant bit first, a lone 1 at position t of n is worth 2^(n-1-t). */
  lemma {:induction false} MsbUnit(n: nat, t: nat)
    requires t < n
    ensures MsbValue(Unit(n, t)) == Pow2(n - 1 - t)
  {
    if t == n - 1 {
      assert Unit(n, t) == Zeros(n - 1) + [true];
      MsbValueSnoc(Zeros(n - 1), true);
      MsbValueZeros(n - 1);
    } else {
      assert Unit(n, t) == Unit(n - 1, t) + [false];
      MsbValueSnoc(Unit(n - 1, t), false);
      MsbUnit(n - 1, t);
    }
  }

  lemma {:induction false} WeightUnit(n: nat, t: nat)
    requires t < n
    ensures Weight(Unit(n, t)) == 1
  {
    var u := Unit(n, t);
    if t == 0 {
      assert u[1..] == Zeros(n - 1);
      LsbValueZero(u[1..]);
    } else {
      assert u[1..] == Unit(n - 1, t - 1);
      WeightUnit(n - 1, t - 1);
    }
  }

  /** v has at most w binary digits exactly when it is below 2^w. */
  lemma {:induction false} DigitsFit(v: nat, w: nat)
    requires w >= 1
    ensures Digits(v) <= w <==> v < Pow2(w)
  {
    if v >= 2 && w >= 2 {
      DigitsFit(v / 2, w - 1);
    } else if v >= 2 {
      assert Digits(v) == 1 + Digits(v / 2) >= 2;
    }
  }

  /** `bin(v)[2:].zfill(w)` is the w-bit binary of v whenever v fits in w bits. */
  lemma BinZfillFits(v: nat, w: nat)
    requires w >= 1 && v < Pow2(w)
    ensures BinZfill(v, w) == MsbBits(v, w)
    ensures MsbValue(BinZfill(v, w)) == v
  {
    DigitsFit(v, w);
    MsbRoundTrip(v, w);
  }

  /** The width of `bin(v)[2:].zfill(w)`: exactly w when v fits, more otherwise. */
  lemma BinZfillWidth(v: nat, w: nat)
    requires w >= 1
    ensures |BinZfill(v, w)| == w <==> v < Pow2(w)
  {
    DigitsFit(v, w);
  }

  // ---------------------------------------------------------------- GF(2)

  lemma {:induction false} DotAppend(a1: seq<bool>, a2: seq<bool>, b1: seq<bool>, b2: seq<bool>)
    requires |a1| == |b1| && |a2| == |b2|
    ensures Dot(a1 + a2, b1 + b2) == (Dot(a1, b1) != Dot(a2, b2))
  {
    if a1 != [] {
      assert (a1 + a2)[1..] == a1[1..] + a2;
      assert (b1 + b2)[1..] == b1[1..] + b2;
      DotAppend(a1[1..], a2, b1[1..], b2);
    } else {
      assert a1 + a2 == a2 && b1 + b2 == b2;
    }
  }

  lemma {:induction false} DotComm(a: seq<bool>, b: seq<bool>)
    requires |a| == |b|
    ensures Dot(a, b) == Dot(b, a)
  {
    if a != [] {
      DotComm(a[1..], b[1..]);
    }
  }

  lemma {:induction false} DotZeros(a: seq<bool>)
    ensures Dot(a, Zeros(|a|)) == false
  {
    if a != [] {
      assert Zeros(|a|)[1..] == Zeros(|a| - 1);
      DotZeros(a[1..]);
    }
  }

  /** Multiplying by a unit vector picks one entry. */
  lemma {:induction false} DotUnit(b: seq<bool>, t: nat)
    requires t < |b|
    ensures Dot(Unit(|b|, t), b) == b[t]
  {
    var u := Unit(|b|, t);
    if t == 0 {
      assert u[1..] == Zeros(|b| - 1);
      DotZeros(b[1..]);
      DotComm(u[1..], b[1..]);
    } else {
      assert u[1..] == Unit(|b| - 1, t - 1);
      DotUnit(b[1..], t - 1);
    }
  }

  /** A dot product is linear: flipping b[p] toggles it exactly when a[p] is set. */
  lemma {:induction false} DotFlip(a: seq<bool>, b: seq<bool>, p: nat)
    requires |a| == |b| && p < |b|
    ensures Dot(a, Flip(b, p)) == (Dot(a, b) != a[p])
  {
    if p > 0 {
      assert Flip(b, p)[1..] == Flip(b[1..], p - 1);
      DotFlip(a[1..], b[1..], p - 1);
    } else {
      assert Flip(b, p)[1..] == b[1..];
    }
  }

  lemma ConcatNil<T>(a: seq<T>)
    ensures a + [] == a == [] + a
  {
  }

  lemma ConcatAssoc<T>(a: seq<T>, b: seq<T>, c: seq<T>)
    ensures a + (b + c) == (a + b) + c
  {
  }

  lemma TakeAppend<T>(a: seq<T>, b: seq<T>)
    ensures (a + b)[..|a|] == a
  {
  }

  /** A sequence that starts with a + b + rest holds a and b at their offsets. */
  lemma PrefixFields<T>(c: seq<T>, a: seq<T>, b: seq<T>, rest: seq<T>)
    requires |a| + |b| + |rest| <= |c| && c[..|a| + |b| + |rest|] == a + b + rest
    ensures c[..|a|] == a && c[|a|..|a| + |b|] == b
  {
    var n := |a| + |b| + |rest|;
    assert c[..|a|] == c[..n][..|a|];
    assert c[|a|..|a| + |b|] == c[..n][|a|..|a| + |b|];
  }

  lemma TakeTake<T>(s: seq<T>, i: nat, j: nat)
    requires i <= j <= |s|
    ensures s[..j][..i] == s[..i]
  {
  }

  lemma DropSlice<T>(s: seq<T>, w: nat, a: nat, b: nat)
    requires w <= |s| && a <= b <= |s| - w
    ensures s[w..][a..b] == s[w + a..w + b]
  {
  }

  /** Flipping a bit of a concatenation flips it in the part that holds it. */
  lemma FlipConcat(x: seq<bool>, y: seq<bool>, p: nat)
    requires p < |x| + |y|
    ensures Flip(x + y, p) == if p < |x| then Flip(x, p) + y else x + Flip(y, p - |x|)
  {
  }

  lemma {:induction false} WeightBound(s: seq<bool>)
    ensures Weight(s) <= |s|
  {
    if s != [] {
      WeightBound(s[1..]);
    }
  }
}
