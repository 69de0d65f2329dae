/** Codes/linear.py: a systematic linear code with a random parity block.
    The encoder puts a 32-bit most-significant-first length header in front of
    the message, pads with random bits to a whole number of bytes (k bits) and
    multiplies by G = [I_k | P], P being k × ⌈log2 k⌉. The decoder first flips
    one bit of the word it was given (position randint(33, len - 1)) in place,
    computes the syndrome with H = [P^T | I], counts its one bits, and, when
    there are any, reads the syndrome most significant bit first as a 1-based
    position to flip before cutting the message out after the header.
    The random block P, the random padding bits and the random position are
    parameters. */
module Linear {
  import opened Bits
  import opened Systematic
  import opened Outcome

  const HeaderLength: nat := 32

  /** `math.ceil(math.log2(k))`: the least r with k <= 2^r. */
  function CeilLog2(k: nat): (r: nat)
    requires k >= 1
    ensures k <= Pow2(r) && (r == 0 || Pow2(r - 1) < k)
    decreases k
  {
    if k <= 1 then 0 else 1 + CeilLog2((k + 1) / 2)
  }

  /** `(8 - (k % 8)) % 8` for k = original_k + 32: the random bits that fill the last byte. */
  function Padding(originalK: nat): (p: nat)
    ensures p < 8 && (originalK + HeaderLength + p) % 8 == 0
  {
    (8 - (originalK + HeaderLength) % 8) % 8
  }

  /** The fields `LinearCodeEncode.__init__` sets. */
  datatype Encoder = Encoder(message: seq<bool>, header: seq<bool>, k: nat, padding: nat, n: nat, encoded: seq<bool>)

  /** `LinearCodeEncode(message)` with parity block p and padding bits fill. The
      header is `bin(len)[2:].zfill(32)`, longer than 32 bits when the length does
      not fit, and then the message vector no longer matches G's k rows. */
  function NewEncoder(message: seq<bool>, p: Parity, fill: seq<bool>): (r: Result<Encoder>)
    requires |fill| == Padding(|message|)
    ensures r.Ok? ==> |r.value.encoded| == r.value.n > r.value.k >= HeaderLength + |message|
  {
    if |message| == 0 then Err(EmptyMessage)
    else
      var header := BinZfill(|message|, HeaderLength);
      var padding := Padding(|message|);
      var k := |message| + HeaderLength + padding;
      var n := k + CeilLog2(k);
      var m := header + message + fill;
      if |m| != k then Err(ShapeMismatch)
      else Ok(Encoder(message, header, k, padding, n, EncodeBlock(m, p, n - k)))
  }

  /** What `LinearCodeDecode.__init__` computes from the (already flipped) word. */
  datatype Decoder = Decoder(syndrome: seq<bool>, errorCount: nat, decodedMessage: seq<bool>)

  /** `correct_errors`: the syndrome read most significant bit first is a 1-based
      position; 0 leaves the word as it is, a position past the end is refused.
      An empty syndrome has no digits for `int(…, 2)` to read. */
  function CorrectErrors(c: seq<bool>, s: seq<bool>): Result<seq<bool>>
  {
    if |s| == 0 then Err(BadLiteral)
    else
      var index := MsbValue(s);
      if index == 0 then Ok(c)
      else if index > |c| then Err(Uncorrectable)
      else Ok(Flip(c, index - 1))
  }

  /** `correct_errors` succeeds exactly when the syndrome names position 0 or a
      position inside the word, and then changes that one bit and no other. */
  lemma CorrectErrorsSpec(c: seq<bool>, s: seq<bool>)
    ensures var r := CorrectErrors(c, s);
      (r.Ok? <==> |s| > 0 && MsbValue(s) <= |c|) &&
      (r.Err? ==> r.error == if |s| == 0 then BadLiteral else Uncorrectable) &&
      (r.Ok? ==> |r.value| == |c| && forall i | 0 <= i < |c| :: r.value[i] != c[i] <==> i + 1 == MsbValue(s))
  {
  }

  /** The bits after the 32-bit header, as many as the header says (fewer if the word ends first). */
  function Extract(c: seq<bool>): seq<bool>
    requires |c| >= HeaderLength
  {
    Slice(c, HeaderLength, HeaderLength + MsbValue(c[..HeaderLength]))
  }

  /** What the header strip keeps: the bits right after the header, as many as it
      announces and no more than the word has. */
  lemma ExtractLayout(c: seq<bool>)
    requires |c| >= HeaderLength
    ensures var r := Extract(c);
      |r| == Min(MsbValue(c[..HeaderLength]), |c| - HeaderLength) && r == c[HeaderLength..HeaderLength + |r|]
  {
  }

  /** `decode_message`: with no syndrome bit set the message is cut out of the word
      as received, otherwise out of the corrected word. */
  function DecodeMessage(c: seq<bool>, s: seq<bool>): Result<seq<bool>>
    requires |c| >= HeaderLength
  {
    if Weight(s) == 0 then Ok(Extract(c))
    else
      match CorrectErrors(c, s)
      case Err(e) => Err(e)
      case Ok(fixed) => Ok(Extract(fixed))
  }

  /** Syndrome, `error_count` and `decoded_message` of a received word, for a k × r block p.
      The product H·c needs the word to have k + r bits. */
  function DecoderOf(c: seq<bool>, p: Parity, k: nat, r: nat): Result<Decoder>
    requires |c| >= HeaderLength
  {
    if |c| != k + r then Err(ShapeMismatch)
    else
      var s := Syndrome(c, p, k, r);
      match DecodeMessage(c, s)
      case Err(e) => Err(e)
      case Ok(m) => Ok(Decoder(s, Weight(s), m))
  }

  /** `LinearCodeDecode(encoded, parity_matrix)`: flips the bit at x, the position
      `randint(33, len - 1)` drew, in the caller's own vector, then decodes. With
      fewer than 34 bits the draw has an empty range and nothing is changed. */
  method NewDecoder(received: array<bool>, p: Parity, k: nat, r: nat, x: nat) returns (d: Result<Decoder>)
    requires received.Length >= 34 ==> 33 <= x < received.Length
    modifies received
    ensures received.Length < 34 ==> d == Err(EmptyRange) && received[..] == old(received[..])
    ensures received.Length >= 34 ==>
      received[..] == Flip(old(received[..]), x) && d == DecoderOf(received[..], p, k, r)
  {
    if received.Length < 34 {
      return Err(EmptyRange);
    }
    received[x] := !received[x];
    d := DecoderOf(received[..], p, k, r);
  }

  // -------------------------------------------------------------- properties

  /** k is the message length plus the header, rounded up to whole bytes, so at
      least 40 and a multiple of 8; n - k = ⌈log2 k⌉ is at least 6. */
  lemma Parameters(message: seq<bool>, p: Parity, fill: seq<bool>)
    requires |fill| == Padding(|message|)
    requires NewEncoder(message, p, fill).Ok?
    ensures var e := NewEncoder(message, p, fill).value;
      e.k % 8 == 0 && e.k >= 40 && |message| + HeaderLength <= e.k < |message| + HeaderLength + 8 &&
      e.n - e.k == CeilLog2(e.k) && e.n - e.k >= 6 && Pow2(e.n - e.k) >= e.k
  {
    var e := NewEncoder(message, p, fill).value;
    ByteRounding(|message|);
    assert e.k == |message| + HeaderLength + Padding(|message|);
    ParityBitCount(e.k);
  }

  lemma ByteRounding(originalK: nat)
    requires originalK >= 1
    ensures var k := originalK + HeaderLength + Padding(originalK);
      k % 8 == 0 && k >= 40 && k < originalK + HeaderLength + 8
  {
  }

  lemma ParityBitCount(k: nat)
    requires k >= 40
    ensures CeilLog2(k) >= 6 && Pow2(CeilLog2(k)) >= k
  {
    var r := CeilLog2(k);
    if r < 6 {
      Pow2Mono(r, 5);
      Pow2Table();
    }
  }

  /** The encoder refuses exactly the empty message and a message whose length
      needs more than 32 header bits. */
  lemma EncoderErrors(message: seq<bool>, p: Parity, fill: seq<bool>)
    requires |fill| == Padding(|message|)
    ensures message == [] ==> NewEncoder(message, p, fill) == Err(EmptyMessage)
    ensures message != [] ==> (NewEncoder(message, p, fill).Ok? <==> |message| < Pow2(HeaderLength))
    ensures message != [] && |message| >= Pow2(HeaderLength) ==> NewEncoder(message, p, fill) == Err(ShapeMismatch)
  {
    if message != [] {
      BinZfillWidth(|message|, HeaderLength);
    }
  }

  /** Encoding is systematic: the codeword starts with the 32-bit length, the
      message and the padding bits, and ends with n - k parity bits. */
  lemma EncodeSystematic(message: seq<bool>, p: Parity, fill: seq<bool>)
    requires |fill| == Padding(|message|)
    requires NewEncoder(message, p, fill).Ok?
    ensures var e := NewEncoder(message, p, fill).value;
      |e.encoded| == e.n && e.encoded[..e.k] == MsbBits(|message|, HeaderLength) + message + fill &&
      e.header == MsbBits(|message|, HeaderLength) && e.encoded == EncodeBlock(e.encoded[..e.k], p, e.n - e.k)
  {
    var e := NewEncoder(message, p, fill).value;
    EncoderErrors(message, p, fill);
    BinZfillFits(|message|, HeaderLength);
    EncodeBlockLayout(e.header + message + fill, p, e.n - e.k);
  }

  /** The word starts with the message's length as 32 bits, most significant first, then the message. */
  ghost predicate Carries(c: seq<bool>, message: seq<bool>)
  {
    |message| < Pow2(HeaderLength) && |c| >= HeaderLength + |message| &&
    c[..HeaderLength] == MsbBits(|message|, HeaderLength) &&
    c[HeaderLength..HeaderLength + |message|] == message
  }

  /** A word that carries a message gives that message back. */
  lemma ExtractMessage(c: seq<bool>, message: seq<bool>)
    requires Carries(c, message)
    ensures Extract(c) == message
  {
    MsbRoundTrip(|message|, HeaderLength);
  }

  /** A flip behind the message keeps it; a flip inside it flips the carried message. */
  lemma FlipCarried(c: seq<bool>, message: seq<bool>, j: nat)
    requires Carries(c, message) && HeaderLength <= j < |c|
    ensures j >= HeaderLength + |message| ==> Carries(Flip(c, j), message)
    ensures j < HeaderLength + |message| ==> Carries(Flip(c, j), Flip(message, j - HeaderLength))
  {
    var w := Flip(c, j);
    assert w[..HeaderLength] == c[..HeaderLength];
    if j >= HeaderLength + |message| {
      assert w[HeaderLength..HeaderLength + |message|] == c[HeaderLength..HeaderLength + |message|];
    } else {
      assert w[HeaderLength..HeaderLength + |message|] == Flip(message, j - HeaderLength);
    }
  }

  /** The header of a message of n bits after bit pos of it is flipped: it now
      announces n plus or minus 2^(31 - pos) bits, never n. */
  function HeaderAfterFlip(n: nat, pos: nat): (h: nat)
    requires n < Pow2(HeaderLength) && pos < HeaderLength
    ensures h == n + Pow2(HeaderLength - 1 - pos) || h + Pow2(HeaderLength - 1 - pos) == n
  {
    MsbFlip(MsbBits(n, HeaderLength), pos);
    MsbRoundTrip(n, HeaderLength);
    MsbValue(Flip(MsbBits(n, HeaderLength), pos))
  }

  /** A word carrying a message, flipped behind the message and then at pos: what
      is cut out of it. A flip behind the header keeps the message or flips one
      of its bits; a flip inside the header changes how many bits are cut out, so
      the message never comes back. */
  lemma TwoFlips(w: seq<bool>, message: seq<bool>, x: nat, pos: nat, out: seq<bool>)
    requires Carries(w, message) && HeaderLength + |message| <= x < |w| && pos < |w|
    requires out == Extract(Flip(Flip(w, x), pos))
    ensures pos >= HeaderLength + |message| ==> out == message
    ensures HeaderLength <= pos < HeaderLength + |message| ==> out == Flip(message, pos - HeaderLength)
    ensures pos < HeaderLength ==>
      |out| == Min(HeaderAfterFlip(|message|, pos), |w| - HeaderLength) && |out| != |message|
  {
    var c := Flip(w, x);
    FlipCarried(w, message, x);
    if HeaderLength <= pos {
      FlipCarried(c, message, pos);
      if pos >= HeaderLength + |message| {
        ExtractMessage(Flip(c, pos), message);
      } else {
        ExtractMessage(Flip(c, pos), Flip(message, pos - HeaderLength));
      }
    } else {
      var v := Flip(c, pos);
      assert v[..HeaderLength] == Flip(c[..HeaderLength], pos);
      ExtractLayout(v);
    }
  }

  /** The sizes `LinearCodeEncode.__init__` computes: k whole bytes of at least 40
      bits holding header and message, ⌈log2 k⌉ parity bits, and an n-bit codeword. */
  ghost predicate Sized(e: Encoder)
  {
    e.k >= 40 && e.k % 8 == 0 && e.n - e.k == CeilLog2(e.k) && |e.encoded| == e.n &&
    HeaderLength + |e.message| <= e.k
  }

  /** What an encoder built by `NewEncoder` with parity block p guarantees: its
      sizes, a codeword that carries the message in front of the padding, and a
      zero syndrome under H = [P^T | I]. */
  ghost predicate Valid(e: Encoder, p: Parity)
  {
    Sized(e) && Carries(e.encoded, e.message) && Syndrome(e.encoded, p, e.k, e.n - e.k) == Zeros(e.n - e.k)
  }

  /** A word that starts with the 32-bit length of a message, the message and
      then padding carries that message. */
  lemma PrefixCarries(c: seq<bool>, header: seq<bool>, message: seq<bool>, fill: seq<bool>)
    requires |message| < Pow2(HeaderLength) && header == MsbBits(|message|, HeaderLength)
    requires |header| + |message| + |fill| <= |c| && c[..|header| + |message| + |fill|] == header + message + fill
    ensures Carries(c, message)
  {
    PrefixFields(c, header, message, fill);
  }

  /** Every word the encoder produces is a codeword: H = [P^T | I] gives it a
      zero syndrome, whatever the parity block. */
  lemma EncodedCodeword(message: seq<bool>, p: Parity, fill: seq<bool>)
    requires |fill| == Padding(|message|)
    requires NewEncoder(message, p, fill).Ok?
    ensures var e := NewEncoder(message, p, fill).value;
      Syndrome(e.encoded, p, e.k, e.n - e.k) == Zeros(e.n - e.k)
  {
    var e := NewEncoder(message, p, fill).value;
    EncodeSystematic(message, p, fill);
    ZeroSyndromeIffCodeword(e.encoded, p, e.k, e.n - e.k);
  }

  /** Every encoder `NewEncoder` builds is valid and keeps the message it was given. */
  lemma EncoderValid(message: seq<bool>, p: Parity, fill: seq<bool>)
    requires |fill| == Padding(|message|)
    requires NewEncoder(message, p, fill).Ok?
    ensures Valid(NewEncoder(message, p, fill).value, p) && NewEncoder(message, p, fill).value.message == message
  {
    var e := NewEncoder(message, p, fill).value;
    Parameters(message, p, fill);
    EncodeSystematic(message, p, fill);
    EncoderErrors(message, p, fill);
    EncodedCodeword(message, p, fill);
    PrefixCarries(e.encoded, e.header, message, fill);
  }

  /** With a zero syndrome `decode_message` returns the carried message, whatever the padding bits were. */
  lemma DecodeCleanWord(c: seq<bool>, s: seq<bool>, message: seq<bool>)
    requires Carries(c, message) && Weight(s) == 0
    ensures DecodeMessage(c, s) == Ok(message)
  {
    ExtractMessage(c, message);
  }

  /** With some syndrome bit set and a position inside the word, `decode_message`
      flips that position and then cuts the message out. */
  lemma DecodeFlips(c: seq<bool>, s: seq<bool>)
    requires |c| >= HeaderLength && Weight(s) > 0 && MsbValue(s) <= |c|
    ensures MsbValue(s) > 0 && DecodeMessage(c, s) == Ok(Extract(Flip(c, MsbValue(s) - 1)))
  {
    MsbValueZero(s);
  }

  /** The error count is the number of one bits of the syndrome, at most r, and 0
      exactly when the word is a codeword. */
  lemma ErrorCount(c: seq<bool>, p: Parity, k: nat, r: nat)
    requires |c| >= HeaderLength && DecoderOf(c, p, k, r).Ok?
    ensures var d := DecoderOf(c, p, k, r).value;
      d.errorCount <= r && (d.errorCount == 0 <==> c == EncodeBlock(c[..k], p, r))
  {
    var s := Syndrome(c, p, k, r);
    WeightBound(s);
    LsbValueZero(s);
    ZeroSyndromeIffCodeword(c, p, k, r);
  }

  /** An unchanged codeword decodes to its message with a zero syndrome. */
  lemma RoundTrip(e: Encoder, p: Parity)
    requires Valid(e, p)
    ensures DecoderOf(e.encoded, p, e.k, e.n - e.k) == Ok(Decoder(Zeros(e.n - e.k), 0, e.message))
  {
    LsbValueZero(Zeros(e.n - e.k));
    DecodeCleanWord(e.encoded, Zeros(e.n - e.k), e.message);
  }

  /** The noise bit alone makes the syndrome: a codeword with bit x flipped has column x of H as syndrome. */
  lemma NoiseSyndrome(c: seq<bool>, p: Parity, k: nat, r: nat, x: nat)
    requires |c| == k + r && Syndrome(c, p, k, r) == Zeros(r) && x < k + r
    ensures Syndrome(Flip(c, x), p, k, r) == HColumn(p, k, r, x)
  {
    FlipSyndrome(c, x, p, k, r);
    XorZeros(HColumn(p, k, r, x));
  }

  /** The unit syndrome of parity bit t, read most significant bit first, names a position inside the first k bits. */
  lemma UnitPosition(k: nat, t: nat)
    requires k >= 1 && t < CeilLog2(k)
    ensures var r := CeilLog2(k);
      Weight(Unit(r, t)) == 1 && MsbValue(Unit(r, t)) == Pow2(r - 1 - t) && Pow2(r - 1 - t) < k
  {
    var r := CeilLog2(k);
    WeightUnit(r, t);
    MsbUnit(r, t);
    Pow2Mono(r - 1 - t, r - 1);
  }

  /** The position, counted from 0, that the decoder flips after noise on parity
      bit x - k: the unit syndrome read most significant bit first, minus one. */
  function MiscorrectedBit(k: nat, x: nat): (pos: nat)
    requires 1 <= k <= x < k + CeilLog2(k)
    ensures pos < k
  {
    UnitPosition(k, x - k);
    Pow2(CeilLog2(k) - 1 - (x - k)) - 1
  }

  /** A word whose syndrome s has count one bits and names position pos + 1 inside
      the word: the decoder reports s and count, and cuts the message out after
      flipping bit pos. */
  lemma DecodeNonzeroSyndrome(c: seq<bool>, p: Parity, k: nat, r: nat, s: seq<bool>, count: nat, pos: nat)
    requires |c| == k + r && |c| >= HeaderLength && Syndrome(c, p, k, r) == s
    requires Weight(s) == count > 0 && MsbValue(s) == pos + 1 && pos < |c|
    ensures DecoderOf(c, p, k, r) == Ok(Decoder(s, count, Extract(Flip(c, pos))))
  {
    DecodeFlips(c, s);
  }

  /** Noise on parity bit t = x - k of a codeword gives the unit syndrome, one
      error counted, and the decoder flips position 2^(r-1-t) - 1, inside the
      first k bits, before it cuts the message out. */
  lemma ParityNoiseDecoded(c: seq<bool>, p: Parity, k: nat, r: nat, x: nat)
    requires k >= HeaderLength && r == CeilLog2(k) && |c| == k + r
    requires Syndrome(c, p, k, r) == Zeros(r) && k <= x < k + r
    ensures DecoderOf(Flip(c, x), p, k, r) == Ok(Decoder(Unit(r, x - k), 1, Extract(Flip(Flip(c, x), MiscorrectedBit(k, x)))))
  {
    var t := x - k;
    NoiseSyndrome(c, p, k, r, x);
    ParityColumn(p, k, r, t);
    UnitPosition(k, t);
    DecodeNonzeroSyndrome(Flip(c, x), p, k, r, Unit(r, t), 1, MiscorrectedBit(k, x));
  }

  /** The message cut out of a carrying word after noise on a parity bit and the
      decoder's flip: the message itself when that flip lands on padding, the
      message with that bit inverted when it lands on the message, and a cut of
      the wrong length when it lands on the header. */
  lemma ParityNoiseMessage(c: seq<bool>, message: seq<bool>, k: nat, x: nat)
    requires Carries(c, message) && HeaderLength + |message| <= k
    requires |c| == k + CeilLog2(k) && k <= x < |c|
    ensures var pos := MiscorrectedBit(k, x);
      pos >= HeaderLength + |message| ==> Extract(Flip(Flip(c, x), pos)) == message
    ensures var pos := MiscorrectedBit(k, x);
      HeaderLength <= pos < HeaderLength + |message| ==>
        Extract(Flip(Flip(c, x), pos)) == Flip(message, pos - HeaderLength)
    ensures var pos := MiscorrectedBit(k, x);
      pos < HeaderLength ==>
        |Extract(Flip(Flip(c, x), pos))| == Min(HeaderAfterFlip(|message|, pos), |c| - HeaderLength) &&
        Extract(Flip(Flip(c, x), pos)) != message
  {
    var pos := MiscorrectedBit(k, x);
    TwoFlips(c, message, x, pos, Extract(Flip(Flip(c, x), pos)));
  }

  /** Noise on a parity bit is never undone: the decoder flips `MiscorrectedBit`
      instead. The message still comes back when that bit is padding; when it is a
      message bit, that bit comes back inverted; when it is a header bit, a cut of
      another length comes back. */
  lemma ParityNoiseMiscorrected(e: Encoder, p: Parity, x: nat)
    requires Valid(e, p) && e.k <= x < e.n
    ensures MiscorrectedBit(e.k, x) >= HeaderLength + |e.message| ==>
      Extract(Flip(Flip(e.encoded, x), MiscorrectedBit(e.k, x))) == e.message
    ensures HeaderLength <= MiscorrectedBit(e.k, x) < HeaderLength + |e.message| ==>
      Extract(Flip(Flip(e.encoded, x), MiscorrectedBit(e.k, x))) == Flip(e.message, MiscorrectedBit(e.k, x) - HeaderLength)
    ensures MiscorrectedBit(e.k, x) < HeaderLength ==>
      Extract(Flip(Flip(e.encoded, x), MiscorrectedBit(e.k, x))) != e.message
  {
    ParityNoiseMessage(e.encoded, e.message, e.k, x);
  }

  /** The decoder's flip after noise on parity bit t lands in the 32-bit header
      exactly when t >= ⌈log2 k⌉ - 6, that is for the six last parity bits. */
  lemma HeaderHit(k: nat, x: nat)
    requires 1 <= k <= x < k + CeilLog2(k)
    ensures MiscorrectedBit(k, x) < HeaderLength <==> x - k + 6 >= CeilLog2(k)
  {
    var e := CeilLog2(k) - 1 - (x - k);
    Pow2Table();
    if e <= 5 {
      Pow2Mono(e, 5);
    } else {
      Pow2Mono(6, e);
      assert Pow2(6) == 64;
    }
  }

  /** For a message of at most 32 bits (k <= 64, six parity bits), every parity
      bit is one of those six: noise on any parity bit makes the decoder flip a
      header bit, and the message does not come back. */
  lemma ShortMessageParityNoise(message: seq<bool>, p: Parity, fill: seq<bool>, x: nat)
    requires |fill| == Padding(|message|) && NewEncoder(message, p, fill).Ok? && |message| <= 32
    requires NewEncoder(message, p, fill).value.k <= x < NewEncoder(message, p, fill).value.n
    ensures var e := NewEncoder(message, p, fill).value;
      MiscorrectedBit(e.k, x) < HeaderLength &&
      Extract(Flip(Flip(e.encoded, x), MiscorrectedBit(e.k, x))) != message
  {
    var e := NewEncoder(message, p, fill).value;
    Parameters(message, p, fill);
    EncoderValid(message, p, fill);
    var r := CeilLog2(e.k);
    Pow2Table();
    assert Pow2(6) == 64;
    if r >= 7 {
      Pow2Mono(6, r - 1);
    }
    assert r == 6;
    HeaderHit(e.k, x);
    ParityNoiseMiscorrected(e, p, x);
  }
}
