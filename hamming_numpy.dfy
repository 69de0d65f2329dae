/** Codes/HammingCodeNumPy.py: a (15,11) Hamming-style block code. The message
    is cut into 8-bit chunks; each block is a 3-bit most-significant-first
    padding count, the chunk zero-padded to 8 bits, and 4 parity bits. The
    decoder repeats syndrome correction on each 15-bit chunk until the syndrome
    is zero, changing the decoder's own copy of the received list in place,
    then strips header and padding. */
module HammingNumPy {
  import opened Bits
  import opened Systematic
  import opened Outcome

  const K: nat := 11
  const R: nat := 4
  const N: nat := 15

  datatype Decoded = Decoded(message: seq<bool>, errorsFound: nat, errorsCorrected: nat)

  const None: Decoded := Decoded([], 0, 0)

  function Plus(a: Decoded, b: Decoded): Decoded
  {
    Decoded(a.message + b.message, a.errorsFound + b.errorsFound, a.errorsCorrected + b.errorsCorrected)
  }

  // ------------------------------------------------------------------ encode

  function PaddingLength(chunk: seq<bool>): nat
  {
    if |chunk| < 8 then 8 - |chunk| else 0
  }

  /** The 11-bit message vector of one chunk: header, chunk, zero padding. */
  function MessageVector(chunk: seq<bool>): (r: seq<bool>)
    requires 1 <= |chunk| <= 8
    ensures |r| == K
  {
    var p := PaddingLength(chunk);
    BinZfillFits(p, 3);
    BinZfill(p, 3) + chunk + Zeros(p)
  }

  function EncodeChunk(chunk: seq<bool>): (r: seq<bool>)
    requires 1 <= |chunk| <= 8
    ensures |r| == N
  {
    EncodeBlock(MessageVector(chunk), HammingParity, R)
  }

  /** What `encode_message` returns: the codewords of the 8-bit chunks, in order. */
  function Encoding(message: seq<bool>): seq<bool>
    decreases |message|
  {
    if message == [] then []
    else
      var c := Min(8, |message|);
      EncodeChunk(message[..c]) + Encoding(message[c..])
  }

  /** Encoding is systematic: the first 11 bits of a block are the 3-bit padding
      count p, most significant first, the chunk, and p zeros. */
  lemma EncodeChunkSystematic(chunk: seq<bool>)
    requires 1 <= |chunk| <= 8
    ensures var p := PaddingLength(chunk);
      var cw := EncodeChunk(chunk);
      |cw| == N && cw[..K] == MessageVector(chunk) == MsbBits(p, 3) + chunk + Zeros(p) &&
      MsbValue(cw[..3]) == p
  {
    var p := PaddingLength(chunk);
    BinZfillFits(p, 3);
    var cw := EncodeChunk(chunk);
    assert cw[..3] == MessageVector(chunk)[..3] == BinZfill(p, 3);
  }

  /** The encoded length is 15 per started group of 8 message bits. */
  lemma {:induction false} EncodingLength(message: seq<bool>)
    ensures |Encoding(message)| == N * ((|message| + 7) / 8)
    decreases |message|
  {
    if message != [] {
      var c := Min(8, |message|);
      EncodingLength(message[c..]);
      ChunkCount(|message|);
    }
  }

  /** Peeling off one chunk removes one from the number of started groups of 8. */
  lemma ChunkCount(len: nat)
    requires len > 0
    ensures (len + 7) / 8 == 1 + (len - Min(8, len) + 7) / 8
  {
    if len >= 8 {
      assert len + 7 == (len - 8 + 7) + 8;
    }
  }

  /** The chunk starting at i and the rest of the encoding after it. */
  lemma EncodingFrom(message: seq<bool>, i: nat, end: nat)
    requires i < |message| && end == Min(i + 8, |message|)
    ensures Encoding(message[i..]) == EncodeChunk(message[i..end]) + Encoding(message[end..])
  {
    var rest := message[i..];
    var c := end - i;
    assert c == Min(8, |rest|);
    assert rest[..c] == message[i..end];
    assert rest[c..] == message[end..];
    EncodingCons(rest);
  }

  /** The vector the loop body multiplies by G is the message vector of the chunk. */
  lemma PaddedMessage(original: seq<bool>, chunk: seq<bool>, header: seq<bool>, padded: seq<bool>)
    requires 1 <= |original| <= 8
    requires chunk == if |original| < 8 then original + Zeros(8 - |original|) else original
    requires header == BinZfill(PaddingLength(original), 3)
    requires padded == header + chunk + Zeros(11 - 3 - |chunk|)
    ensures padded == MessageVector(original)
  {
  }

  /** The loop body's product with G is the codeword of the chunk. */
  lemma ChunkProduct(original: seq<bool>, chunk: seq<bool>, header: seq<bool>, padded: seq<bool>, g: array2<bool>)
    requires IsGenerator(g, HammingParity, K, R)
    requires 1 <= |original| <= 8
    requires chunk == if |original| < 8 then original + Zeros(8 - |original|) else original
    requires header == BinZfill(PaddingLength(original), 3)
    requires padded == header + chunk + Zeros(11 - 3 - |chunk|)
    ensures |padded| == K && VecTimes(padded, g) == EncodeChunk(original)
  {
    PaddedMessage(original, chunk, header, padded);
    VecTimesGenerator(padded, g, HammingParity, R);
  }

  /** One pass of `encode_message`'s loop keeps its invariant. */
  lemma EncodeStep(message: seq<bool>, i: nat, end: nat, encoded: seq<bool>, encodedChunk: seq<bool>)
    requires i < |message| && end == Min(i + 8, |message|)
    requires encoded + Encoding(message[i..]) == Encoding(message)
    requires encodedChunk == EncodeChunk(message[i..end])
    ensures (encoded + encodedChunk) + Encoding(message[end..]) == Encoding(message)
  {
    EncodingFrom(message, i, end);
    ConcatAssoc(encoded, encodedChunk, Encoding(message[end..]));
  }

  /** `encode_message`, using the generator matrix built by `create_generator_matrix`. */
  method EncodeMessage(message: seq<bool>, g: array2<bool>) returns (encoded: seq<bool>)
    requires IsGenerator(g, HammingParity, K, R)
    ensures encoded == Encoding(message)
  {
    encoded := [];
    var i := 0;
    while i < |message|
      invariant 0 <= i <= |message|
      invariant encoded + Encoding(message[i..]) == Encoding(message)
    {
      var end := Min(i + 8, |message|);
      var chunk := message[i..end];
      ghost var original := chunk;
      var actualLength := |chunk|;
      var paddingLength := if actualLength < 8 then 8 - actualLength else 0;
      if paddingLength > 0 {
        chunk := chunk + Zeros(paddingLength);
      }
      var header := BinZfill(paddingLength, 3);
      var paddedMessage := header + chunk + Zeros(11 - 3 - |chunk|);
      ChunkProduct(original, chunk, header, paddedMessage, g);
      var encodedChunk := VecTimes(paddedMessage, g);
      assert encodedChunk == EncodeChunk(message[i..end]);
      EncodeStep(message, i, end, encoded, encodedChunk);
      encoded := encoded + encodedChunk;
      i := i + actualLength;
      assert i == end;
    }
  }

  // ------------------------------------------------------------------ decode

  function Syn(c: seq<bool>): seq<bool>
    requires |c| == N
  {
    Syndrome(c, HammingParity, K, R)
  }

  /** A measure on syndrome values that every correction step lowers:
      12 -> 13 -> 15 -> 7 -> 0, 14 -> 10 -> 0, and 1..11 -> 0. */
  function LoopRank(s: nat): nat
  {
    if s == 0 then 0 else if s <= 11 then 1 else if s >= 14 then 2 else if s == 13 then 3 else 4
  }

  /** One pass of the `while True` loop on a chunk with a non-zero syndrome:
      its value s is in 1..15, so `correct_errors` flips bit s - 1, and the
      syndrome value that follows has a smaller rank. */
  lemma {:induction false} CorrectionStep(c: seq<bool>)
    requires |c| == N && Weight(Syn(c)) != 0
    ensures var s := LsbValue(Syn(c));
      0 < s <= N && Corrected(c, Syn(c), N) == Flip(c, s - 1) &&
      LoopRank(LsbValue(Syn(Flip(c, s - 1)))) < LoopRank(s)
  {
    var S := Syn(c);
    var s := LsbValue(S);
    LsbValueZero(S);
    LsbValueBound(S);
    Pow2Table();
    if s <= K {
      HammingStepToZero(c, K, R);
      LsbValueZero(Zeros(R));
    } else {
      HammingStepOnParity(c, K, R);
      LsbBitsOfValue(S);
      assert S[s - 1 - K] == Bit(s, s - 1 - K);
      LsbFlip(S, s - 1 - K);
      if s == 12 {
        assert Bit(12, 0) == false;
      } else if s == 13 {
        assert Bit(13, 1) == false && Pow2(1) == 2;
      } else if s == 14 {
        assert Bit(14, 2) == true && Pow2(2) == 4;
      } else {
        assert Bit(15, 3) == true && Pow2(3) == 8;
      }
    }
  }

  /** The `while True` loop of `decode_message` on one chunk: the corrected chunk
      and the number of passes that found a non-zero syndrome. It stops only on
      the zero syndrome, after at most four passes. */
  function CorrectionLoop(c: seq<bool>): (r: (seq<bool>, nat))
    requires |c| == N
    ensures |r.0| == N
    decreases LoopRank(LsbValue(Syn(c)))
  {
    var s := Syn(c);
    if Weight(s) == 0 then (c, 0)
    else
      CorrectionStep(c);
      var next := CorrectionLoop(Corrected(c, s, N));
      (next.0, next.1 + 1)
  }

  /** The loop stops only on a chunk with the zero syndrome, after at most four
      passes, and makes a pass exactly when the received syndrome is non-zero. */
  lemma {:induction false} CorrectionLoopStops(c: seq<bool>)
    requires |c| == N
    ensures Weight(Syn(CorrectionLoop(c).0)) == 0
    ensures CorrectionLoop(c).1 <= LoopRank(LsbValue(Syn(c))) <= 4
    ensures CorrectionLoop(c).1 == 0 <==> Weight(Syn(c)) == 0
    decreases LoopRank(LsbValue(Syn(c)))
  {
    var s := Syn(c);
    LsbValueZero(s);
    if Weight(s) != 0 {
      CorrectionStep(c);
      CorrectionLoopStops(Corrected(c, s, N));
    }
  }

  /** One block of `decode_message`: correct, read the padding count p from the
      first 3 bits, keep bits 3 .. 11 - p. */
  function DecodeChunk(c: seq<bool>): Decoded
    requires |c| == N
  {
    var (corrected, passes) := CorrectionLoop(c);
    var paddingLength := MsbValue(corrected[..3]);
    Decoded(Slice(corrected, 3, 11 - paddingLength), passes, if passes > 0 then 1 else 0)
  }

  /** The result once the blocks before `rest` have given `done`. */
  function Then(done: Decoded, rest: Result<Decoded>): Result<Decoded>
  {
    match rest
    case Err(e) => Err(e)
    case Ok(d) => Ok(Plus(done, d))
  }

  /** The decoder's own copy of the received list after decoding: every chunk
      replaced by its corrected form. */
  function CorrectedWord(w: seq<bool>): seq<bool>
    decreases |w|
  {
    if |w| < N then w else CorrectionLoop(w[..N]).0 + CorrectedWord(w[N..])
  }

  /** What the decoder computes: the 15-bit chunks decoded in order; a
      trailing chunk shorter than 15 bits makes `np.dot` raise. */
  function Decoding(w: seq<bool>): Result<Decoded>
    decreases |w|
  {
    if |w| == 0 then Ok(None)
    else if |w| < N then Err(ShapeMismatch)
    else Then(DecodeChunk(w[..N]), Decoding(w[N..]))
  }

  /** The inner `while True` loop of `decode_message`: the view a[off..off + 15]
      is corrected in place until its syndrome is zero, and nothing else in a
      changes; the passes that found a non-zero syndrome are counted. */
  method CorrectInPlace(a: array<bool>, off: nat, h: array2<bool>) returns (errorsFound: nat)
    requires off + N <= a.Length
    requires IsCheckMatrix(h, HammingParity, K, R)
    modifies a
    ensures a[..] == old(a[..off]) + CorrectionLoop(old(a[off..off + N])).0 + old(a[off + N..])
    ensures errorsFound == CorrectionLoop(old(a[off..off + N])).1
  {
    ghost var goal := CorrectionLoop(a[off..off + N]);
    errorsFound := 0;
    while true
      invariant a[..] == old(a[..off]) + a[off..off + N] + old(a[off + N..])
      invariant CorrectionLoop(a[off..off + N]).0 == goal.0
      invariant CorrectionLoop(a[off..off + N]).1 + errorsFound == goal.1
      decreases LoopRank(LsbValue(Syn(a[off..off + N])))
    {
      var chunk := a[off..off + N];
      TimesVecCheck(h, chunk, HammingParity, K, R);
      var syndrome := TimesVec(h, chunk);
      if Weight(syndrome) != 0 {
        CorrectionStep(chunk);
        CorrectErrors(a, off, syndrome, N);
        assert a[off..off + N] == Corrected(chunk, syndrome, N);
        errorsFound := errorsFound + 1;
      } else {
        break;
      }
    }
  }

  /** The body of `decode_message`'s loop for the chunk at off: the view is
      corrected in place, then header and padding are stripped. */
  method DecodeChunkInPlace(a: array<bool>, off: nat, h: array2<bool>) returns (piece: Decoded)
    requires off + N <= a.Length
    requires IsCheckMatrix(h, HammingParity, K, R)
    modifies a
    ensures a[..] == old(a[..off]) + CorrectionLoop(old(a[off..off + N])).0 + old(a[off + N..])
    ensures piece == DecodeChunk(old(a[off..off + N]))
  {
    ghost var c := a[off..off + N];
    var errorsFound := CorrectInPlace(a, off, h);
    var correctedChunk := a[off..off + N];
    assert correctedChunk == CorrectionLoop(c).0;
    var paddingLength: int := MsbValue(correctedChunk[..3]);
    var originalMessage := Slice(correctedChunk, 3, 11 - paddingLength);
    piece := Decoded(originalMessage, errorsFound, if errorsFound > 0 then 1 else 0);
  }

  lemma PlusNone(x: Decoded)
    ensures Plus(None, x) == x == Plus(x, None)
  {
    ConcatNil(x.message);
  }

  lemma PlusAssoc(a: Decoded, b: Decoded, c: Decoded)
    ensures Plus(Plus(a, b), c) == Plus(a, Plus(b, c))
  {
    ConcatAssoc(a.message, b.message, c.message);
  }

  lemma ThenNone(r: Result<Decoded>)
    ensures Then(None, r) == r
  {
    if r.Ok? {
      PlusNone(r.value);
    }
  }

  lemma ThenAssoc(a: Decoded, b: Decoded, r: Result<Decoded>)
    ensures Then(a, Then(b, r)) == Then(Plus(a, b), r)
  {
    if r.Ok? {
      PlusAssoc(a, b, r.value);
    }
  }

  /** Decoding a word is decoding its first block, then the rest. */
  lemma DecodingCons(x: seq<bool>, y: seq<bool>)
    requires |x| == N
    ensures Decoding(x + y) == Then(DecodeChunk(x), Decoding(y))
  {
    assert (x + y)[..N] == x && (x + y)[N..] == y;
  }

  lemma CorrectedWordCons(x: seq<bool>, y: seq<bool>)
    requires |x| == N
    ensures CorrectedWord(x + y) == CorrectionLoop(x).0 + CorrectedWord(y)
  {
    assert (x + y)[..N] == x && (x + y)[N..] == y;
  }

  /** The decoder's two loop invariants carry over one block. */
  lemma DecodeStep(w: seq<bool>, i: nat, done: Decoded)
    requires i + N <= |w|
    requires Then(done, Decoding(w[i..])) == Decoding(w)
    ensures Then(Plus(done, DecodeChunk(w[i..i + N])), Decoding(w[i + N..])) == Decoding(w)
  {
    assert w[i..] == w[i..i + N] + w[i + N..];
    DecodingCons(w[i..i + N], w[i + N..]);
    ThenAssoc(done, DecodeChunk(w[i..i + N]), Decoding(w[i + N..]));
  }

  lemma CorrectStep(w: seq<bool>, i: nat, prefix: seq<bool>)
    requires i + N <= |w|
    requires prefix + CorrectedWord(w[i..]) == CorrectedWord(w)
    ensures prefix + CorrectionLoop(w[i..i + N]).0 + CorrectedWord(w[i + N..]) == CorrectedWord(w)
  {
    assert w[i..] == w[i..i + N] + w[i + N..];
    CorrectedWordCons(w[i..i + N], w[i + N..]);
    ConcatAssoc(prefix, CorrectionLoop(w[i..i + N]).0, CorrectedWord(w[i + N..]));
  }

  /** One pass of `decode_message`'s loop keeps its invariants: `before` and
      `after` are the array's contents around the correction of block i. */
  lemma LoopStep(w: seq<bool>, i: nat, done: Decoded, before: seq<bool>, after: seq<bool>)
    requires i + N <= |w| == |before| && before[i..] == w[i..]
    requires Then(done, Decoding(w[i..])) == Decoding(w)
    requires before[..i] + CorrectedWord(w[i..]) == CorrectedWord(w)
    requires after == before[..i] + CorrectionLoop(before[i..i + N]).0 + before[i + N..]
    ensures before[i..i + N] == w[i..i + N] && after[i + N..] == w[i + N..]
    ensures Then(Plus(done, DecodeChunk(w[i..i + N])), Decoding(w[i + N..])) == Decoding(w)
    ensures after[..i + N] + CorrectedWord(w[i + N..]) == CorrectedWord(w)
  {
    assert before[i..i + N] == w[i..i + N] by { assert before[i..][..N] == w[i..][..N]; }
    assert after[i + N..] == w[i + N..] by { assert before[i..][N..] == w[i..][N..]; }
    assert after[..i + N] == before[..i] + CorrectionLoop(w[i..i + N]).0;
    DecodeStep(w, i, done);
    CorrectStep(w, i, before[..i]);
  }

  /** When `decode_message`'s loop ends at the end of the array, its invariants
      are the decoder's postconditions. */
  lemma LoopDone(w: seq<bool>, i: nat, done: Decoded)
    requires i == |w|
    requires Then(done, Decoding(w[i..])) == Decoding(w)
    ensures Decoding(w) == Ok(done)
  {
    assert w[i..] == [];
    PlusNone(done);
  }

  lemma LoopDoneInPlace(w: seq<bool>, final: seq<bool>, i: nat)
    requires i == |w| == |final|
    requires final[..i] + CorrectedWord(w[i..]) == CorrectedWord(w)
    ensures final == CorrectedWord(w)
  {
    assert w[i..] == [] && final[..i] == final;
    ConcatNil(final);
  }

  /** A word whose last block is cut short does not decode. */
  lemma ShortTail(w: seq<bool>, i: nat, done: Decoded)
    requires i < |w| < i + N
    requires Then(done, Decoding(w[i..])) == Decoding(w)
    ensures Decoding(w) == Err(ShapeMismatch)
  {
  }

  /** `decode_message` on the decoder's array: the corrections are made in place. */
  method DecodeMessage(a: array<bool>, h: array2<bool>) returns (r: Result<Decoded>)
    requires IsCheckMatrix(h, HammingParity, K, R)
    modifies a
    ensures r == Decoding(old(a[..]))
    ensures r.Ok? ==> a[..] == CorrectedWord(old(a[..]))
  {
    ghost var w := a[..];
    // decoded_message, errors_found and errors_corrected so far
    var done := None;
    var i := 0;
    assert w[i..] == w && a[..i] == [];
    ThenNone(Decoding(w));
    ConcatNil(CorrectedWord(w));
    while i < a.Length
      invariant 0 <= i <= a.Length
      invariant a[i..] == w[i..]
      invariant Then(done, Decoding(w[i..])) == Decoding(w)
      invariant a[..i] + CorrectedWord(w[i..]) == CorrectedWord(w)
    {
      if i + N > a.Length {
        ShortTail(w, i, done);
        return Err(ShapeMismatch);
      }
      ghost var before := a[..];
      var piece := DecodeChunkInPlace(a, i, h);
      LoopStep(w, i, done, before, a[..]);
      done := Plus(done, piece);
      i := i + N;
    }
    LoopDone(w, i, done);
    LoopDoneInPlace(w, a[..], i);
    return Ok(done);
  }

  // -------------------------------------------------------------- properties

  lemma DecodeEncodedChunk(chunk: seq<bool>)
    requires 1 <= |chunk| <= 8
    ensures CorrectionLoop(EncodeChunk(chunk)) == (EncodeChunk(chunk), 0)
    ensures DecodeChunk(EncodeChunk(chunk)) == Decoded(chunk, 0, 0)
  {
    var cw := EncodeChunk(chunk);
    EncodeChunkSystematic(chunk);
    CodewordSyndrome(MessageVector(chunk), HammingParity, R);
    LsbValueZero(Syn(cw));
    assert cw[..3] == MessageVector(chunk)[..3];
    assert Slice(cw, 3, 11 - PaddingLength(chunk)) == chunk;
  }

  /** The encoding of a message is the first chunk's block followed by the encoding of the rest. */
  lemma EncodingCons(message: seq<bool>)
    requires message != []
    ensures var c := Min(8, |message|);
      Encoding(message) == EncodeChunk(message[..c]) + Encoding(message[c..])
  {
  }

  /** The block of a message's first c bits, in front of a word that decodes cleanly
      to the rest of the message, decodes cleanly to the whole message. */
  lemma DecodeAfterCodeword(message: seq<bool>, c: nat, code: seq<bool>)
    requires 1 <= c <= 8 && c <= |message|
    requires Decoding(code) == Ok(Decoded(message[c..], 0, 0))
    ensures Decoding(EncodeChunk(message[..c]) + code) == Ok(Decoded(message, 0, 0))
  {
    DecodingCons(EncodeChunk(message[..c]), code);
    DecodeEncodedChunk(message[..c]);
    assert message[..c] + message[c..] == message;
  }

  /** A codeword in front of a word is left as it is. */
  lemma CorrectedAfterCodeword(chunk: seq<bool>, code: seq<bool>)
    requires 1 <= |chunk| <= 8
    ensures CorrectedWord(EncodeChunk(chunk) + code) == EncodeChunk(chunk) + CorrectedWord(code)
  {
    CorrectedWordCons(EncodeChunk(chunk), code);
    DecodeEncodedChunk(chunk);
  }

  /** Without noise, decoding returns exactly the encoded bits, finds no error and
      leaves the decoder's own copy of the received list unchanged. */
  lemma {:induction false} RoundTrip(message: seq<bool>)
    ensures Decoding(Encoding(message)) == Ok(Decoded(message, 0, 0))
    ensures CorrectedWord(Encoding(message)) == Encoding(message)
    decreases |message|
  {
    if message != [] {
      var c := Min(8, |message|);
      EncodingCons(message);
      RoundTrip(message[c..]);
      DecodeAfterCodeword(message, c, Encoding(message[c..]));
      CorrectedAfterCodeword(message[..c], Encoding(message[c..]));
    }
  }

  /** One flipped header or data bit in a block is found in one pass and undone. */
  lemma ChunkSingleDataError(chunk: seq<bool>, j: nat)
    requires 1 <= |chunk| <= 8 && j < K
    ensures CorrectionLoop(Flip(EncodeChunk(chunk), j)) == (EncodeChunk(chunk), 1)
    ensures DecodeChunk(Flip(EncodeChunk(chunk), j)) == Decoded(chunk, 1, 1)
  {
    var cw := EncodeChunk(chunk);
    var bad := Flip(cw, j);
    HammingDataError(MessageVector(chunk), R, j);
    Pow2Table();
    LsbValueZero(Syn(bad));
    assert Flip(bad, j) == cw;
    DecodeEncodedChunk(chunk);
  }

  lemma BlockInRange(len: nat, b: nat, j: nat)
    requires j < N && b < (len + 7) / 8
    ensures N * b + j < N * ((len + 7) / 8)
  {
    var q := (len + 7) / 8;
    assert N * b + N <= N * q;
  }

  /** A flip inside the first block of a word changes only what that block decodes to. */
  lemma FlipFirstBlock(x: seq<bool>, y: seq<bool>, j: nat, dx: Decoded, dy: Decoded)
    requires |x| == N && j < N
    requires DecodeChunk(Flip(x, j)) == dx && Decoding(y) == Ok(dy)
    ensures Decoding(Flip(x + y, j)) == Ok(Plus(dx, dy))
  {
    FlipConcat(x, y, j);
    DecodingCons(Flip(x, j), y);
  }

  /** A flip behind the first block of a word changes only what the rest decodes to. */
  lemma FlipLaterBlock(x: seq<bool>, y: seq<bool>, q: nat, dx: Decoded, dy: Decoded)
    requires |x| == N && q < |y|
    requires DecodeChunk(x) == dx && Decoding(Flip(y, q)) == Ok(dy)
    ensures Decoding(Flip(x + y, N + q)) == Ok(Plus(dx, dy))
  {
    FlipConcat(x, y, N + q);
    DecodingCons(x, Flip(y, q));
  }

  lemma SplitMessage(message: seq<bool>, c: nat)
    requires c <= |message|
    ensures Plus(Decoded(message[..c], 1, 1), Decoded(message[c..], 0, 0)) == Decoded(message, 1, 1)
    ensures Plus(Decoded(message[..c], 0, 0), Decoded(message[c..], 1, 1)) == Decoded(message, 1, 1)
  {
    assert message[..c] + message[c..] == message;
  }

  /** One flip at a header or data position of the first block, and a clean rest:
      the whole message comes back. */
  lemma FlipHead(message: seq<bool>, c: nat, j: nat)
    requires 1 <= c <= 8 && c <= |message| && j < K
    ensures Decoding(Flip(EncodeChunk(message[..c]) + Encoding(message[c..]), j)) == Ok(Decoded(message, 1, 1))
  {
    RoundTrip(message[c..]);
    ChunkSingleDataError(message[..c], j);
    FlipFirstBlock(EncodeChunk(message[..c]), Encoding(message[c..]), j, Decoded(message[..c], 1, 1), Decoded(message[c..], 0, 0));
    SplitMessage(message, c);
  }

  /** A clean first block, and one flip in the rest. */
  lemma FlipTail(message: seq<bool>, c: nat, q: nat)
    requires 1 <= c <= 8 && c <= |message| && q < |Encoding(message[c..])|
    requires Decoding(Flip(Encoding(message[c..]), q)) == Ok(Decoded(message[c..], 1, 1))
    ensures Decoding(Flip(EncodeChunk(message[..c]) + Encoding(message[c..]), N + q)) == Ok(Decoded(message, 1, 1))
  {
    DecodeEncodedChunk(message[..c]);
    FlipLaterBlock(EncodeChunk(message[..c]), Encoding(message[c..]), q, Decoded(message[..c], 0, 0), Decoded(message[c..], 1, 1));
    SplitMessage(message, c);
  }

  /** A single flip at message position j < 11 of one block is found once and
      corrected: the decoder returns the original bits with both counters at 1. */
  lemma {:induction false} SingleDataErrorCorrected(message: seq<bool>, b: nat, j: nat)
    requires j < K && b < (|message| + 7) / 8
    ensures N * b + j < |Encoding(message)| &&
      Decoding(Flip(Encoding(message), N * b + j)) == Ok(Decoded(message, 1, 1))
    decreases |message|
  {
    EncodingLength(message);
    BlockInRange(|message|, b, j);
    ChunkCount(|message|);
    var c := Min(8, |message|);
    EncodingCons(message);
    if b == 0 {
      FlipHead(message, c, j);
    } else {
      SingleDataErrorCorrected(message[c..], b - 1, j);
      FlipTail(message, c, N * (b - 1) + j);
    }
  }

  /** A single flip at parity position 11 + t is "corrected" by flipping
      message position 2^t - 1 instead: the loop stops after one pass on a word
      with the zero syndrome that is wrong in a header or data bit. */
  lemma ParityErrorMiscorrected(chunk: seq<bool>, t: nat)
    requires 1 <= |chunk| <= 8 && t < R
    ensures Pow2(t) <= 8
    ensures var bad := Flip(EncodeChunk(chunk), K + t);
      CorrectionLoop(bad) == (Flip(bad, Pow2(t) - 1), 1)
  {
    var bad := Flip(EncodeChunk(chunk), K + t);
    HammingParityError(MessageVector(chunk), R, t);
    Pow2Mono(t, R - 1);
    Pow2Table();
    LsbValueZero(Syn(bad));
    HammingStepToZero(bad, K, R);
    LsbValueZero(Syn(Flip(bad, Pow2(t) - 1)));
  }

  lemma BlocksAfter(len: nat)
    requires len >= N
    ensures (len - N) / N + 1 == len / N && (len - N) % N == len % N
  {
  }

  /** The decoder returns a result exactly for whole 15-bit chunks. */
  lemma {:induction false} DecodingShape(w: seq<bool>)
    ensures Decoding(w).Ok? <==> |w| % N == 0
    decreases |w|
  {
    if |w| >= N {
      DecodingShape(w[N..]);
      BlocksAfter(|w|);
    }
  }

  /** `errors_found` counts passes, at most four per block; `errors_corrected`
      counts blocks that needed at least one pass. */
  lemma {:induction false} CountersBounded(w: seq<bool>)
    decreases |w|
    ensures Decoding(w).Ok? ==> var d := Decoding(w).value;
      d.errorsCorrected <= d.errorsFound <= 4 * (|w| / N) && d.errorsCorrected <= |w| / N
  {
    if |w| >= N {
      CountersBounded(w[N..]);
      BlocksAfter(|w|);
      CorrectionLoopStops(w[..N]);
    }
  }

  /** Each block contributes 8 - p bits, p being the 3-bit header it ends with. */
  lemma ChunkYield(c: seq<bool>)
    requires |c| == N
    ensures var corrected := CorrectionLoop(c).0;
      |DecodeChunk(c).message| == 8 - MsbValue(corrected[..3])
  {
    var corrected := CorrectionLoop(c).0;
    MsbValueBound(corrected[..3]);
    Pow2Table();
  }
}
