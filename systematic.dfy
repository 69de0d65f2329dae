/** Systematic binary linear block codes, the construction shared by every
    channel coder of the repository. A k-bit message m is encoded as m·G with
    G = [I_k | P]; a received n-bit word c (n = k + r) is checked with
    H = [P^T | I_r], whose product H·c is the syndrome. The k×r parity block P
    is given as an entry function p(row, column): the canonical Hamming block
    p(j, t) = bit t of (j + 1), or any other block (random in the generic code). */
module Systematic {
  import opened Bits

  type Parity = (nat, nat) -> bool

  /** Column t of the k×r parity block. */
  function PCol(p: Parity, k: nat, t: nat): seq<bool>
  {
    seq(k, j requires 0 <= j < k => p(j, t))
  }

  function ParityBits(m: seq<bool>, p: Parity, r: nat): seq<bool>
  {
    seq(r, t requires 0 <= t < r => Dot(m, PCol(p, |m|, t)))
  }

  /** The codeword m·[I | P]: the message itself followed by its r parity bits. */
  function EncodeBlock(m: seq<bool>, p: Parity, r: nat): seq<bool>
  {
    m + ParityBits(m, p, r)
  }

  /** A codeword is its message followed by r parity bits. */
  lemma EncodeBlockLayout(m: seq<bool>, p: Parity, r: nat)
    ensures |EncodeBlock(m, p, r)| == |m| + r && EncodeBlock(m, p, r)[..|m|] == m
  {
  }

  /** Row t of H = [P^T | I_r]. */
  function HRow(p: Parity, k: nat, r: nat, t: nat): seq<bool>
  {
    PCol(p, k, t) + Unit(r, t)
  }

  /** Column j of H = [P^T | I_r]: row j of P for a message position, a unit vector for a parity position. */
  function HColumn(p: Parity, k: nat, r: nat, j: nat): seq<bool>
  {
    seq(r, t requires 0 <= t < r => if j < k then p(j, t) else j - k == t)
  }

  /** The syndrome H·c over GF(2), entry t belonging to row t of H. */
  function Syndrome(c: seq<bool>, p: Parity, k: nat, r: nat): seq<bool>
    requires |c| == k + r
  {
    seq(r, t requires 0 <= t < r => Dot(HRow(p, k, r, t), c))
  }

  /** Entry (i, j) of G = [I_k | P]. */
  function GEntry(p: Parity, k: nat, i: nat, j: nat): bool
  {
    if j < k then i == j else p(i, j - k)
  }

  /** Entry (t, j) of H = [P^T | I_r]. */
  function HEntry(p: Parity, k: nat, t: nat, j: nat): bool
  {
    if j < k then p(j, t) else j - k == t
  }

  /** The canonical Hamming parity block: entry (j, t) is bit t of j + 1,
      `(j + 1) & (1 << t) != 0`. */
  function HammingParity(j: nat, t: nat): bool
  {
    Bit(j + 1, t)
  }

  // ------------------------------------------------- matrices held in arrays

  /** Row vector times matrix, `np.dot(v, g) % 2` / `v * g` over GF(2). */
  function VecTimes(v: seq<bool>, g: array2<bool>): seq<bool>
    reads g
    requires |v| == g.Length0
  {
    seq(g.Length1, j reads g requires 0 <= j < g.Length1 =>
      Dot(v, seq(g.Length0, i reads g requires 0 <= i < g.Length0 => g[i, j])))
  }

  /** Matrix times column vector, `np.dot(h, c) % 2` / `h * c.column()` over GF(2). */
  function TimesVec(h: array2<bool>, c: seq<bool>): seq<bool>
    reads h
    requires |c| == h.Length1
  {
    seq(h.Length0, t reads h requires 0 <= t < h.Length0 =>
      Dot(seq(h.Length1, j reads h requires 0 <= j < h.Length1 => h[t, j]), c))
  }

  ghost predicate IsGenerator(g: array2<bool>, p: Parity, k: nat, r: nat)
    reads g
  {
    g.Length0 == k && g.Length1 == k + r &&
    forall i, j :: 0 <= i < k && 0 <= j < k + r ==> g[i, j] == GEntry(p, k, i, j)
  }

  ghost predicate IsCheckMatrix(h: array2<bool>, p: Parity, k: nat, r: nat)
    reads h
  {
    h.Length0 == r && h.Length1 == k + r &&
    forall t, j :: 0 <= t < r && 0 <= j < k + r ==> h[t, j] == HEntry(p, k, t, j)
  }

  /** `create_generator_matrix`: an identity block and, cell by cell, the parity block. */
  method CreateGeneratorMatrix(k: nat, r: nat, p: Parity) returns (g: array2<bool>)
    ensures fresh(g) && IsGenerator(g, p, k, r)
  {
    g := new bool[k, k + r];
    for i := 0 to k
      invariant forall i', j :: 0 <= i' < i && 0 <= j < k + r ==> g[i', j] == GEntry(p, k, i', j)
    {
      for j := 0 to k + r
        invariant forall i', j' :: 0 <= i' < i && 0 <= j' < k + r ==> g[i', j'] == GEntry(p, k, i', j')
        invariant forall j' :: 0 <= j' < j ==> g[i, j'] == GEntry(p, k, i, j')
      {
        g[i, j] := if j < k then i == j else p(i, j - k);
      }
    }
  }

  /** `create_h_matrix`: the transposed parity block cell by cell, then an identity block. */
  method CreateHMatrix(k: nat, r: nat, p: Parity) returns (h: array2<bool>)
    ensures fresh(h) && IsCheckMatrix(h, p, k, r)
  {
    h := new bool[r, k + r];
    for t := 0 to r
      invariant forall t', j :: 0 <= t' < t && 0 <= j < k + r ==> h[t', j] == HEntry(p, k, t', j)
    {
      for j := 0 to k + r
        invariant forall t', j' :: 0 <= t' < t && 0 <= j' < k + r ==> h[t', j'] == HEntry(p, k, t', j')
        invariant forall j' :: 0 <= j' < j ==> h[t, j'] == HEntry(p, k, t, j')
      {
        h[t, j] := if j < k then p(j, t) else j - k == t;
      }
    }
  }

  /** Multiplying by the generator array is systematic encoding. */
  lemma VecTimesGenerator(v: seq<bool>, g: array2<bool>, p: Parity, r: nat)
    requires IsGenerator(g, p, |v|, r)
    ensures VecTimes(v, g) == EncodeBlock(v, p, r)
  {
    var k := |v|;
    forall j | 0 <= j < k + r
      ensures VecTimes(v, g)[j] == EncodeBlock(v, p, r)[j]
    {
      var col := seq(g.Length0, i reads g requires 0 <= i < g.Length0 => g[i, j]);
      if j < k {
        assert col == Unit(k, j);
        DotComm(v, col);
        DotUnit(v, j);
      } else {
        assert col == PCol(p, k, j - k);
      }
    }
  }

  /** Multiplying by the check array is the syndrome. */
  lemma TimesVecCheck(h: array2<bool>, c: seq<bool>, p: Parity, k: nat, r: nat)
    requires IsCheckMatrix(h, p, k, r) && |c| == k + r
    ensures TimesVec(h, c) == Syndrome(c, p, k, r)
  {
    forall t | 0 <= t < r
      ensures TimesVec(h, c)[t] == Syndrome(c, p, k, r)[t]
    {
      var row := seq(h.Length1, j reads h requires 0 <= j < h.Length1 => h[t, j]);
      assert row == HRow(p, k, r, t);
    }
  }

  // ------------------------------------------------------------- properties

  /** G·H^T = 0: every codeword has the zero syndrome, whatever the parity block. */
  lemma CodewordSyndrome(m: seq<bool>, p: Parity, r: nat)
    ensures Syndrome(EncodeBlock(m, p, r), p, |m|, r) == Zeros(r)
  {
    var k := |m|;
    var c := EncodeBlock(m, p, r);
    forall t | 0 <= t < r
      ensures Syndrome(c, p, k, r)[t] == false
    {
      var par := ParityBits(m, p, r);
      DotAppend(PCol(p, k, t), Unit(r, t), m, par);
      DotUnit(par, t);
      DotComm(m, PCol(p, k, t));
    }
  }

  /** A word has the zero syndrome exactly when it is the codeword of its first k bits. */
  lemma ZeroSyndromeIffCodeword(c: seq<bool>, p: Parity, k: nat, r: nat)
    requires |c| == k + r
    ensures Syndrome(c, p, k, r) == Zeros(r) <==> c == EncodeBlock(c[..k], p, r)
  {
    var m, tail := c[..k], c[k..];
    assert c == m + tail;
    var par := ParityBits(m, p, r);
    forall t | 0 <= t < r
      ensures Syndrome(c, p, k, r)[t] == (tail[t] != par[t])
    {
      DotAppend(PCol(p, k, t), Unit(r, t), m, tail);
      DotUnit(tail, t);
      DotComm(m, PCol(p, k, t));
    }
    if Syndrome(c, p, k, r) == Zeros(r) {
      assert forall t :: 0 <= t < r ==> tail[t] == par[t];
      assert tail == par;
    }
    if c == EncodeBlock(m, p, r) {
      assert tail == par;
      assert forall t :: 0 <= t < r ==> Syndrome(c, p, k, r)[t] == false;
    }
  }

  /** The syndrome is linear: flipping bit j adds column j of H. */
  lemma FlipSyndrome(c: seq<bool>, j: nat, p: Parity, k: nat, r: nat)
    requires |c| == k + r && j < |c|
    ensures Syndrome(Flip(c, j), p, k, r) == Xor(Syndrome(c, p, k, r), HColumn(p, k, r, j))
  {
    forall t | 0 <= t < r
      ensures Syndrome(Flip(c, j), p, k, r)[t] == Xor(Syndrome(c, p, k, r), HColumn(p, k, r, j))[t]
    {
      DotFlip(HRow(p, k, r, t), c, j);
    }
  }

  /** Column j < k of the Hamming check matrix is the binary of j + 1. */
  lemma HammingDataColumn(k: nat, r: nat, j: nat)
    requires j < k
    ensures HColumn(HammingParity, k, r, j) == LsbBits(j + 1, r)
  {
    forall t | 0 <= t < r
      ensures HColumn(HammingParity, k, r, j)[t] == LsbBits(j + 1, r)[t]
    {
      assert HammingParity(j, t) == Bit(j + 1, t);
    }
  }

  /** The parity columns of a check matrix [P^T | I_r] are unit vectors, whatever P is. */
  lemma ParityColumn(p: Parity, k: nat, r: nat, t: nat)
    requires t < r
    ensures HColumn(p, k, r, k + t) == Unit(r, t)
  {
  }

  lemma XorZeros(a: seq<bool>)
    ensures Xor(Zeros(|a|), a) == a
    ensures Xor(a, a) == Zeros(|a|)
  {
  }

  lemma XorUnit(a: seq<bool>, t: nat)
    requires t < |a|
    ensures Xor(a, Unit(|a|, t)) == Flip(a, t)
  {
  }

  /** One bit flipped at a message position j of a Hamming codeword gives the
      syndrome whose least-significant-first value is j + 1. */
  lemma {:induction false} HammingDataError(m: seq<bool>, r: nat, j: nat)
    requires j < |m| && j + 1 < Pow2(r)
    ensures LsbValue(Syndrome(Flip(EncodeBlock(m, HammingParity, r), j), HammingParity, |m|, r)) == j + 1
  {
    var c := EncodeBlock(m, HammingParity, r);
    CodewordSyndrome(m, HammingParity, r);
    FlipSyndrome(c, j, HammingParity, |m|, r);
    HammingDataColumn(|m|, r, j);
    XorZeros(LsbBits(j + 1, r));
    LsbRoundTrip(j + 1, r);
  }

  /** One bit flipped at parity position k + t of a Hamming codeword gives the syndrome value 2^t. */
  lemma {:induction false} HammingParityError(m: seq<bool>, r: nat, t: nat)
    requires t < r
    ensures LsbValue(Syndrome(Flip(EncodeBlock(m, HammingParity, r), |m| + t), HammingParity, |m|, r)) == Pow2(t)
  {
    var c := EncodeBlock(m, HammingParity, r);
    CodewordSyndrome(m, HammingParity, r);
    FlipSyndrome(c, |m| + t, HammingParity, |m|, r);
    ParityColumn(HammingParity, |m|, r, t);
    XorZeros(Unit(r, t));
    LsbUnit(r, t);
  }

  /** Message column 2^t - 1 equals parity column k + t, so the word with just
      those two bits set is a codeword: the code's minimum distance is 2, not 3. */
  lemma {:induction false} HammingWeightTwoCodeword(k: nat, r: nat, t: nat)
    requires t < r && Pow2(t) <= k
    ensures HColumn(HammingParity, k, r, Pow2(t) - 1) == HColumn(HammingParity, k, r, k + t)
    ensures Syndrome(Flip(Flip(Zeros(k + r), Pow2(t) - 1), k + t), HammingParity, k, r) == Zeros(r)
  {
    var j := Pow2(t) - 1;
    HammingDataColumn(k, r, j);
    ParityColumn(HammingParity, k, r, t);
    LsbBitsOfValue(Unit(r, t));
    LsbUnit(r, t);
    var z := Zeros(k + r);
    assert z == EncodeBlock(Zeros(k), HammingParity, r) by {
      forall t' | 0 <= t' < r
        ensures ParityBits(Zeros(k), HammingParity, r)[t'] == false
      {
        DotComm(Zeros(k), PCol(HammingParity, k, t'));
        DotZeros(PCol(HammingParity, k, t'));
      }
    }
    CodewordSyndrome(Zeros(k), HammingParity, r);
    FlipSyndrome(z, j, HammingParity, k, r);
    FlipSyndrome(Flip(z, j), k + t, HammingParity, k, r);
  }

  /** Flip bit idx - 1 when the syndrome's least-significant-first value idx is
      in 1..limit, otherwise leave the word alone. */
  function Corrected(c: seq<bool>, s: seq<bool>, limit: nat): seq<bool>
    requires limit <= |c|
  {
    var idx := LsbValue(s);
    if 0 < idx <= limit then Flip(c, idx - 1) else c
  }

  /** `correct_errors` on a NumPy view: the block c = a[off..off + limit] is
      corrected in place and nothing else in a changes. */
  method CorrectErrors(a: array<bool>, off: nat, s: seq<bool>, limit: nat)
    requires off + limit <= a.Length
    modifies a
    ensures a[..] == old(a[..off]) + Corrected(old(a[off..off + limit]), s, limit) + old(a[off + limit..])
    ensures var idx := LsbValue(s);
      forall i :: 0 <= i < a.Length && a[i] != old(a[i]) ==> 0 < idx <= limit && i == off + idx - 1
  {
    var idx := LsbValue(s);
    if 0 < idx <= limit {
      a[off + idx - 1] := !a[off + idx - 1];
    }
    assert a[..] == old(a[..off]) + Corrected(old(a[off..off + limit]), s, limit) + old(a[off + limit..]);
  }

  /** The Hamming correction step on any word whose syndrome value s is in 1..k:
      flipping bit s - 1 reaches the zero syndrome. */
  lemma {:induction false} HammingStepToZero(c: seq<bool>, k: nat, r: nat)
    requires |c| == k + r
    requires 0 < LsbValue(Syndrome(c, HammingParity, k, r)) <= k
    ensures var s := LsbValue(Syndrome(c, HammingParity, k, r));
      Syndrome(Flip(c, s - 1), HammingParity, k, r) == Zeros(r)
  {
    var S := Syndrome(c, HammingParity, k, r);
    var s := LsbValue(S);
    LsbBitsOfValue(S);
    FlipSyndrome(c, s - 1, HammingParity, k, r);
    HammingDataColumn(k, r, s - 1);
    XorZeros(S);
  }

  /** On a word whose syndrome value s is in k+1..k+r the step flips a parity bit
      and the syndrome value moves by 2^(s-1-k). */
  lemma {:induction false} HammingStepOnParity(c: seq<bool>, k: nat, r: nat)
    requires |c| == k + r
    requires k < LsbValue(Syndrome(c, HammingParity, k, r)) <= k + r
    ensures var S := Syndrome(c, HammingParity, k, r);
      var s := LsbValue(S);
      Syndrome(Flip(c, s - 1), HammingParity, k, r) == Flip(S, s - 1 - k)
  {
    var S := Syndrome(c, HammingParity, k, r);
    var s := LsbValue(S);
    FlipSyndrome(c, s - 1, HammingParity, k, r);
    ParityColumn(HammingParity, k, r, s - 1 - k);
    XorUnit(S, s - 1 - k);
  }
}
