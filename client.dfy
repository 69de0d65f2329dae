/** client.py: the wire helpers the client applies to a coded message before it
    is sent — `create_noise`, which flips randomly drawn positions of the bit
    list in place, and `bits_to_bytes_with_header`, which packs the bits into a
    byte array behind a header byte that says how many bits the last byte holds.
    The positions `random.randint` draws are a parameter. */
module Client {
  import opened Bits

  type Byte = b: nat | b < 256

  // ------------------------------------------------------------ byte packing

  /** The header byte: how many bits the last byte carries, 8 when the bits fill whole bytes. */
  function LastByteBits(n: nat): (h: nat)
    ensures 1 <= h <= 8 && h % 8 == n % 8
  {
    if n % 8 != 0 then n % 8 else 8
  }

  /** Up to eight bits read most significant bit first fit in a byte. */
  lemma ByteBound(s: seq<bool>)
    requires |s| <= 8
    ensures MsbValue(s) < Pow2(|s|) <= 256
  {
    MsbValueBound(s);
    Pow2Mono(|s|, 8);
    assert Pow2(8) == 256 by {
      Pow2Table();
      assert Pow2(6) == 64 && Pow2(7) == 128;
    }
  }

  /** One byte per group of eight bits, the group's first bit most significant;
      a shorter last group gives its value right-aligned. */
  function Groups(bits: seq<bool>): seq<Byte>
    decreases |bits|
  {
    if |bits| == 0 then []
    else
      var w := Min(8, |bits|);
      ByteBound(bits[..w]);
      [MsbValue(bits[..w])] + Groups(bits[w..])
  }

  /** What `bits_to_bytes_with_header` returns: the header byte, then the groups. */
  function Packed(bits: seq<bool>): seq<Byte>
  {
    [LastByteBits(|bits|)] + Groups(bits)
  }

  /** Groups of the bits from i on: the first group, then the rest. */
  lemma GroupsStep(bits: seq<bool>, i: nat)
    requires i < |bits|
    ensures var w := Min(8, |bits| - i);
      Groups(bits[i..]) == [MsbValue(bits[i..i + w])] + Groups(bits[i + w..])
  {
    var w := Min(8, |bits| - i);
    assert bits[i..][..w] == bits[i..i + w];
    assert bits[i..][w..] == bits[i + w..];
  }

  /** Reading one more bit of a group doubles its value and adds the bit. */
  lemma MsbExtend(bits: seq<bool>, i: nat, j: nat)
    requires i + j < |bits|
    ensures MsbValue(bits[i..i + j + 1]) == 2 * MsbValue(bits[i..i + j]) + ToNat(bits[i + j])
  {
    MsbValueSnoc(bits[i..i + j], bits[i + j]);
    assert bits[i..i + j + 1] == bits[i..i + j] + [bits[i + j]];
  }

  /** `bits_to_bytes_with_header`: appends the header byte, then for each start
      i = 0, 8, 16, … shifts up to eight bits into an accumulator, stopping at the
      end of the bits, and appends it. */
  method BitsToBytesWithHeader(bits: seq<bool>) returns (out: seq<Byte>)
    ensures out == Packed(bits)
  {
    out := [LastByteBits(|bits|)];
    var i := 0;
    while i < |bits|
      invariant i <= |bits| && out + Groups(bits[i..]) == Packed(bits)
      decreases |bits| - i
    {
      var value: nat := 0;
      var j := 0;
      while j < 8
        invariant j <= 8 && i + j <= |bits|
        invariant value == MsbValue(bits[i..i + j])
        invariant j < 8 ==> i + j <= |bits|
        decreases 8 - j
      {
        if i + j < |bits| {
          MsbExtend(bits, i, j);
          value := 2 * value + ToNat(bits[i + j]);
          j := j + 1;
        } else {
          break;
        }
      }
      assert j == Min(8, |bits| - i);
      GroupsStep(bits, i);
      ByteBound(bits[i..i + j]);
      ConcatAssoc(out, [value], Groups(bits[i + j..]));
      out := out + [value];
      i := i + j;
      if i < |bits| {
        assert j == 8;
      }
    }
    assert bits[i..] == [];
  }

  lemma {:induction false} GroupsLength(bits: seq<bool>)
    ensures |Groups(bits)| == (|bits| + 7) / 8
    decreases |bits|
  {
    if |bits| > 0 {
      GroupsLength(bits[Min(8, |bits|)..]);
    }
  }

  /** The byte array has one header byte and one byte per started group of eight
      bits; its header lies in 1..8, and the empty bit list packs to the single byte 8. */
  lemma PackedShape(bits: seq<bool>)
    ensures |Packed(bits)| == 1 + (|bits| + 7) / 8
    ensures 1 <= Packed(bits)[0] <= 8
    ensures bits == [] ==> Packed(bits) == [8]
  {
    GroupsLength(bits);
  }

  /** Byte g of the groups is bits 8g .. 8g+8 (fewer for the last), most significant first. */
  lemma {:induction false} GroupByte(bits: seq<bool>, g: nat)
    requires 8 * g < |bits|
    ensures g < |Groups(bits)| && Groups(bits)[g] == MsbValue(bits[8 * g..Min(8 * g + 8, |bits|)])
    decreases g
  {
    GroupsLength(bits);
    if g > 0 {
      var w := Min(8, |bits|);
      GroupByte(bits[w..], g - 1);
      DropSlice(bits, w, 8 * (g - 1), Min(8 * (g - 1) + 8, |bits| - w));
    }
  }

  /** Each full group of eight bits becomes the byte whose most significant bit is
      the group's first; a last group of r < 8 bits becomes an r-bit value, not
      shifted left. */
  lemma PackedBytes(bits: seq<bool>, g: nat)
    requires 8 * g < |bits|
    ensures 1 + g < |Packed(bits)|
    ensures 8 * g + 8 <= |bits| ==> Packed(bits)[1 + g] == MsbValue(bits[8 * g..8 * g + 8])
    ensures 8 * g + 8 > |bits| ==> Packed(bits)[1 + g] == MsbValue(bits[8 * g..]) < Pow2(|bits| % 8)
  {
    PackedShape(bits);
    GroupByte(bits, g);
    assert Packed(bits)[1 + g] == Groups(bits)[g];
    if 8 * g + 8 > |bits| {
      assert bits[8 * g..Min(8 * g + 8, |bits|)] == bits[8 * g..];
      MsbValueBound(bits[8 * g..]);
      assert |bits| - 8 * g == |bits| % 8;
    }
  }

  /** Bit lists of the same length with the same groups are equal. */
  lemma {:induction false} GroupsInjective(a: seq<bool>, b: seq<bool>)
    requires |a| == |b| && Groups(a) == Groups(b)
    ensures a == b
    decreases |a|
  {
    if |a| > 0 {
      var w := Min(8, |a|);
      assert Groups(a)[0] == MsbValue(a[..w]) && Groups(b)[0] == MsbValue(b[..w]);
      MsbBitsOfValue(a[..w]);
      MsbBitsOfValue(b[..w]);
      assert Groups(a)[1..] == Groups(a[w..]) && Groups(b)[1..] == Groups(b[w..]);
      GroupsInjective(a[w..], b[w..]);
      assert a == a[..w] + a[w..];
      assert b == b[..w] + b[w..];
    }
  }

  /** Header byte and byte count together give back the number of bits. */
  lemma BitCount(n: nat)
    ensures var h, len := LastByteBits(n), 1 + (n + 7) / 8;
      n == if len == 1 then 0 else 8 * (len - 2) + h
  {
  }

  /** The packing is injective: distinct bit lists give distinct byte arrays. */
  lemma PackedInjective(a: seq<bool>, b: seq<bool>)
    requires Packed(a) == Packed(b)
    ensures a == b
  {
    PackedShape(a);
    PackedShape(b);
    BitCount(|a|);
    BitCount(|b|);
    assert Groups(a) == Packed(a)[1..];
    assert Groups(b) == Packed(b)[1..];
    GroupsInjective(a, b);
  }

  // -------------------------------------------------------------------- noise

  /** `int(len(mes) * percentage)` after a percentage outside [0, 1] has been
      replaced by 0.01: the largest whole number of bits not above that share. */
  function NoiseCount(length: nat, percentage: real): (n: nat)
    ensures var share := if percentage < 0.0 || percentage > 1.0 then 0.01 else percentage;
      n as real <= length as real * share < (n + 1) as real
    ensures n <= length
  {
    var share := if percentage < 0.0 || percentage > 1.0 then 0.01 else percentage;
    assert 0.0 <= length as real * share <= length as real;
    (length as real * share).Floor
  }

  /** A percentage outside [0, 1] counts as 0.01. */
  lemma NoiseCountOutOfRange(length: nat, percentage: real)
    requires percentage < 0.0 || percentage > 1.0
    ensures NoiseCount(length, percentage) == NoiseCount(length, 0.01)
  {
  }

  /** The distinct positions among the drawn ones. */
  function Chosen(choices: seq<nat>): set<nat>
  {
    set k | 0 <= k < |choices| :: choices[k]
  }

  /** Growing the draws by one adds its position to the chosen set. */
  lemma ChosenSnoc(choices: seq<nat>, c: nat)
    ensures Chosen(choices + [c]) == Chosen(choices) + {c}
  {
    var s := choices + [c];
    forall x | x in Chosen(s)
      ensures x in Chosen(choices) + {c}
    {
      var k :| 0 <= k < |s| && s[k] == x;
      if k < |choices| {
        assert choices[k] == x;
      }
    }
    forall x | x in Chosen(choices)
      ensures x in Chosen(s)
    {
      var k :| 0 <= k < |choices| && choices[k] == x;
      assert s[k] == x;
    }
    assert s[|choices|] == c;
  }

  /** There are no more distinct positions than draws. */
  lemma {:induction false} ChosenSize(choices: seq<nat>)
    ensures |Chosen(choices)| <= |choices|
    decreases |choices|
  {
    if |choices| > 0 {
      var init := choices[..|choices| - 1];
      ChosenSize(init);
      assert choices == init + [choices[|choices| - 1]];
      ChosenSnoc(init, choices[|choices| - 1]);
    }
  }

  /** `create_noise`: for each drawn position not seen before, records it and
      flips that bit of `mes` in place; returns how many distinct positions were
      flipped. The draws `random.randint(0, len(mes) - 1)` are `choices`. */
  method CreateNoise(mes: array<bool>, percentage: real, choices: seq<nat>) returns (count: nat)
    requires |choices| == NoiseCount(mes.Length, percentage)
    requires forall k | 0 <= k < |choices| :: choices[k] < mes.Length
    modifies mes
    ensures count == |Chosen(choices)| && count <= |choices|
    ensures forall i | 0 <= i < mes.Length :: mes[i] != old(mes[i]) <==> i in Chosen(choices)
  {
    var indexes: set<nat> := {};
    var k := 0;
    while k < |choices|
      invariant k <= |choices| && indexes == Chosen(choices[..k])
      invariant forall i | 0 <= i < mes.Length :: mes[i] == (old(mes[i]) != (i in indexes))
    {
      var index := choices[k];
      assert choices[..k + 1] == choices[..k] + [index];
      ChosenSnoc(choices[..k], index);
      if index !in indexes {
        indexes := indexes + {index};
        mes[index] := !mes[index];
      }
      k := k + 1;
    }
    assert choices[..k] == choices;
    ChosenSize(choices);
    count := |indexes|;
  }
}
