/** Codes/HammingCode.py: the (15,11) Hamming code written for Sage. The
    message is cut into 7-bit chunks; each block is a 4-bit most-significant-
    first count of the chunk's real bits, the chunk zero-padded to 7 bits and
    4 parity bits. The decoder works on a copy of each 15-bit chunk, makes one
    correction attempt, adds the number of non-zero syndrome bits to its error
    count, keeps as many data bits as the header says and finally cuts the
    result to `len(encoded) // 20 * 12` bits. */
module HammingSage {
  import opened Bits
  import opened Systematic
  import opened Outcome
  import opened Shapes

  const K: nat := 11
  const R: nat := 4
  const N: nat := 15

  /** What `decode_message` returns: the bits and `error_count`. */
  datatype Decoded = Decoded(message: seq<bool>, errorCount: nat)

  const None: Decoded := Decoded([], 0)

  function Plus(a: Decoded, b: Decoded): Decoded
  {
    Decoded(a.message + b.message, a.errorCount + b.errorCount)
  }

  lemma PlusNone(x: Decoded)
    ensures Plus(None, x) == x == Plus(x, None)
  {
    ConcatNil(x.message);
  }

  lemma PlusAssoc(a: Decoded, b: Decoded, c: Decoded)
    ensures Plus(Plus(a, b), c) == Plus(a, Plus(b, c))
  {
    ConcatAssoc(a.message, b.message, c.message);
  }

  // ------------------------------------------------------------------ encode

  /** The 11-bit message vector of one chunk: the 4-bit length, then the chunk padded to 7 bits. */
  function MessageVector(chunk: seq<bool>): (r: seq<bool>)
    requires 1 <= |chunk| <= 7
    ensures |r| == K
  {
    Pow2Table();
    BinZfillFits(|chunk|, 4);
    BinZfill(|chunk|, 4) + (chunk + Zeros(7 - |chunk|))
  }

  function EncodeChunk(chunk: seq<bool>): (r: seq<bool>)
    requires 1 <= |chunk| <= 7
    ensures |r| == N
  {
    EncodeBlock(MessageVector(chunk), HammingParity, R)
  }

  /** What `encode_message` returns: the codewords of the 7-bit chunks, in order. */
  function Encoding(message: seq<bool>): seq<bool>
    decreases |message|
  {
    if message == [] then []
    else
      var c := Min(7, |message|);
      EncodeChunk(message[..c]) + Encoding(message[c..])
  }

  /** A chunk length fits the 4-bit header. */
  lemma Header(n: nat)
    requires n <= 7
    ensures BinZfill(n, 4) == MsbBits(n, 4) && MsbValue(BinZfill(n, 4)) == n
  {
    Pow2Table();
    BinZfillFits(n, 4);
  }

  /** Encoding is systematic: a block starts with the 4-bit length n of its
      chunk, the chunk, and 7 - n zeros. */
  lemma EncodeChunkSystematic(chunk: seq<bool>)
    requires 1 <= |chunk| <= 7
    ensures var cw := EncodeChunk(chunk);
      cw[..K] == MessageVector(chunk) == MsbBits(|chunk|, 4) + chunk + Zeros(7 - |chunk|) &&
      MsbValue(cw[..4]) == |chunk|
  {
    var cw := EncodeChunk(chunk);
    var mv := MessageVector(chunk);
    var header := BinZfill(|chunk|, 4);
    Header(|chunk|);
    EncodeBlockLayout(mv, HammingParity, R);
    ConcatAssoc(header, chunk, Zeros(7 - |chunk|));
    TakeTake(cw, 4, K);
    TakeAppend(header, chunk + Zeros(7 - |chunk|));
  }

  lemma ChunkCount(len: nat)
    requires len > 0
    ensures (len + 6) / 7 == 1 + (len - Min(7, len) + 6) / 7
  {
    if len >= 7 {
      assert len + 6 == (len - 7 + 6) + 7;
    }
  }

  /** The encoded length is 15 per started group of 7 message bits. */
  lemma {:induction false} EncodingLength(message: seq<bool>)
    ensures |Encoding(message)| == N * ((|message| + 6) / 7)
    decreases |message|
  {
    if message != [] {
      var c := Min(7, |message|);
      EncodingLength(message[c..]);
      ChunkCount(|message|);
    }
  }

  lemma EncodingCons(message: seq<bool>)
    requires message != []
    ensures var c := Min(7, |message|);
      Encoding(message) == EncodeChunk(message[..c]) + Encoding(message[c..])
  {
  }

  lemma EncodingFrom(message: seq<bool>, i: nat, end: nat)
    requires i < |message| && end == Min(i + 7, |message|)
    ensures Encoding(message[i..]) == EncodeChunk(message[i..end]) + Encoding(message[end..])
  {
    var rest := message[i..];
    var c := end - i;
    assert c == Min(7, |rest|);
    assert rest[..c] == message[i..end];
    assert rest[c..] == message[end..];
    EncodingCons(rest);
  }

  /** The vector the loop body multiplies by G is the message vector of the chunk. */
  lemma PaddedMessage(original: seq<bool>, chunk: seq<bool>, header: seq<bool>, padded: seq<bool>)
    requires 1 <= |original| <= 7
    requires chunk == if |original| < 7 then original + Zeros(7 - |original|) else original
    requires header == BinZfill(|original|, 4)
    requires padded == header + chunk + Zeros(11 - 4 - |chunk|)
    ensures padded == MessageVector(original)
  {
    ConcatNil(header + chunk);
  }

  /** The loop body's product with G is the codeword of the chunk. */
  lemma ChunkProduct(original: seq<bool>, chunk: seq<bool>, header: seq<bool>, padded: seq<bool>, g: array2<bool>)
    requires IsGenerator(g, HammingParity, K, R)
    requires 1 <= |original| <= 7
    requires chunk == if |original| < 7 then original + Zeros(7 - |original|) else original
    requires header == BinZfill(|original|, 4)
    requires padded == header + chunk + Zeros(11 - 4 - |chunk|)
    ensures |padded| == K && VecTimes(padded, g) == EncodeChunk(original)
  {
    PaddedMessage(original, chunk, header, padded);
    VecTimesGenerator(padded, g, HammingParity, R);
  }

  /** One pass of `encode_message`'s loop keeps its invariant. */
  lemma EncodeStep(message: seq<bool>, i: nat, end: nat, encoded: seq<bool>, encodedChunk: seq<bool>)
    requires i < |message| && end == Min(i + 7, |message|)
    requires encoded + Encoding(message[i..]) == Encoding(message)
    requires encodedChunk == EncodeChunk(message[i..end])
    ensures (encoded + encodedChunk) + Encoding(message[end..]) == Encoding(message)
  {
    EncodingFrom(message, i, end);
    ConcatAssoc(encoded, encodedChunk, Encoding(message[end..]));
  }

  /** `encode_message`, given the 11×15 generator matrix [I | P] that
      `create_generator_matrix` is meant to build. */
  method EncodeMessage(message: seq<bool>, g: array2<bool>) returns (encoded: seq<bool>)
    requires IsGenerator(g, HammingParity, K, R)
    ensures encoded == Encoding(message)
  {
    encoded := [];
    var i := 0;
    while i < |message|
      invariant 0 <= i <= |message|
      invariant encoded + Encoding(message[i..]) == Encoding(message)
    {
      var end := Min(i + 7, |message|);
      var chunk := message[i..end];
      ghost var original := chunk;
      var actualLength := |chunk|;
      if actualLength < 7 {
        chunk := chunk + Zeros(7 - actualLength);
      }
      var header := BinZfill(actualLength, 4);
      var paddedMessage := header + chunk + Zeros(11 - 4 - |chunk|);
      ChunkProduct(original, chunk, header, paddedMessage, g);
      var encodedChunk := VecTimes(paddedMessage, g);
      assert encodedChunk == EncodeChunk(message[i..end]);
      EncodeStep(message, i, end, encoded, encodedChunk);
      encoded := encoded + encodedChunk;
      i := i + actualLength;
      assert i == end;
    }
  }

  // ------------------------------------------------------------------ decode

  function Syn(c: seq<bool>): seq<bool>
    requires |c| == N
  {
    Syndrome(c, HammingParity, K, R)
  }

  /** The copy of the chunk after the single correction attempt. */
  function Fixed(c: seq<bool>): (r: seq<bool>)
    requires |c| == N
    ensures |r| == N
  {
    Corrected(c, Syn(c), N)
  }

  /** One block of `decode_message`: the header's count of data bits, taken
      from `corrected_chunk[4:4 + k]`, and the number of non-zero syndrome bits. */
  function DecodeChunk(c: seq<bool>): Decoded
    requires |c| == N
  {
    var fixed := Fixed(c);
    Decoded(Slice(fixed, 4, 4 + MsbValue(fixed[..4])), Weight(Syn(c)))
  }

  /** The result once the blocks before `rest` have given `done`. */
  function Then(done: Decoded, rest: Result<Decoded>): Result<Decoded>
  {
    match rest
    case Err(e) => Err(e)
    case Ok(d) => Ok(Plus(done, d))
  }

  /** The decoder without the final cut: every 15-bit block decoded in turn;
      a trailing chunk shorter than 15 bits cannot be multiplied by H. */
  function Decoding(w: seq<bool>): Result<Decoded>
    decreases |w|
  {
    if |w| == 0 then Ok(None)
    else if |w| < N then Err(ShapeMismatch)
    else Then(DecodeChunk(w[..N]), Decoding(w[N..]))
  }

  /** The decoder as written: the decoded bits are then cut to
      `len(encoded) // 20 * 12`. */
  function DecodingAsWritten(w: seq<bool>): Result<Decoded>
  {
    match Decoding(w)
    case Err(e) => Err(e)
    case Ok(d) => Ok(Decoded(Slice(d.message, 0, |w| / 20 * 12), d.errorCount))
  }

  lemma ThenNone(r: Result<Decoded>)
    ensures Then(None, r) == r
  {
    if r.Ok? {
      PlusNone(r.value);
    }
  }

  lemma ThenAssoc(a: Decoded, b: Decoded, r: Result<Decoded>)
    ensures Then(a, Then(b, r)) == Then(Plus(a, b), r)
  {
    if r.Ok? {
      PlusAssoc(a, b, r.value);
    }
  }

  /** Decoding a word is decoding its first block, then the rest. */
  lemma DecodingCons(x: seq<bool>, y: seq<bool>)
    requires |x| == N
    ensures Decoding(x + y) == Then(DecodeChunk(x), Decoding(y))
  {
    assert (x + y)[..N] == x && (x + y)[N..] == y;
  }

  /** One pass of `decode_message`'s loop keeps its invariant. */
  lemma DecodeStep(w: seq<bool>, i: nat, done: Decoded)
    requires i + N <= |w|
    requires Then(done, Decoding(w[i..])) == Decoding(w)
    ensures Then(Plus(done, DecodeChunk(w[i..i + N])), Decoding(w[i + N..])) == Decoding(w)
  {
    assert w[i..] == w[i..i + N] + w[i + N..];
    DecodingCons(w[i..i + N], w[i + N..]);
    ThenAssoc(done, DecodeChunk(w[i..i + N]), Decoding(w[i + N..]));
  }

  lemma LoopDone(w: seq<bool>, i: nat, done: Decoded)
    requires i == |w|
    requires Then(done, Decoding(w[i..])) == Decoding(w)
    ensures Decoding(w) == Ok(done)
  {
    assert w[i..] == [];
    PlusNone(done);
  }

  /** A word whose last block is cut short does not decode. */
  lemma ShortTail(w: seq<bool>, i: nat, done: Decoded)
    requires i < |w| < i + N
    requires Then(done, Decoding(w[i..])) == Decoding(w)
    ensures Decoding(w) == Err(ShapeMismatch)
  {
  }

  /** `decode_message` as written, given the 4×15 check matrix [Pᵀ | I] that
      `create_h_matrix` is meant to build. */
  method DecodeMessage(encoded: seq<bool>, h: array2<bool>) returns (r: Result<Decoded>)
    requires IsCheckMatrix(h, HammingParity, K, R)
    ensures r == DecodingAsWritten(encoded)
  {
    // decoded_message and error_count so far
    var done := None;
    var i := 0;
    assert encoded[i..] == encoded;
    ThenNone(Decoding(encoded));
    while i < |encoded|
      invariant 0 <= i <= |encoded|
      invariant Then(done, Decoding(encoded[i..])) == Decoding(encoded)
    {
      if i + N > |encoded| {
        ShortTail(encoded, i, done);
        return Err(ShapeMismatch);
      }
      var chunk := encoded[i..i + N];
      TimesVecCheck(h, chunk, HammingParity, K, R);
      var syndrome := TimesVec(h, chunk);
      var correctedChunk := Corrected(chunk, syndrome, N);
      var k := MsbValue(correctedChunk[..4]);
      var originalMessage := Slice(correctedChunk, 4, 4 + k);
      var piece := Decoded(originalMessage, Weight(syndrome));
      assert piece == DecodeChunk(chunk);
      DecodeStep(encoded, i, done);
      done := Plus(done, piece);
      i := i + N;
    }
    LoopDone(encoded, i, done);
    // the final cut to len(encoded) // 20 * 12 bits
    return Ok(Decoded(Slice(done.message, 0, |encoded| / 20 * 12), done.errorCount));
  }

  // -------------------------------------------------------------- properties

  /** The data kept from a block is as long as its header says, but never
      runs past the 11 message positions. */
  lemma ChunkYield(c: seq<bool>)
    requires |c| == N
    ensures var k := MsbValue(Fixed(c)[..4]);
      k < 16 && |DecodeChunk(c).message| == Min(k, 11)
  {
    MsbValueBound(Fixed(c)[..4]);
    Pow2Table();
  }

  lemma DecodeEncodedChunk(chunk: seq<bool>)
    requires 1 <= |chunk| <= 7
    ensures Fixed(EncodeChunk(chunk)) == EncodeChunk(chunk)
    ensures DecodeChunk(EncodeChunk(chunk)) == Decoded(chunk, 0)
  {
    var cw := EncodeChunk(chunk);
    EncodeChunkSystematic(chunk);
    CodewordSyndrome(MessageVector(chunk), HammingParity, R);
    LsbValueZero(Syn(cw));
    assert Slice(cw, 4, 4 + |chunk|) == chunk;
  }

  /** The block of a message's first c bits, in front of a word that decodes cleanly
      to the rest of the message, decodes cleanly to the whole message. */
  lemma DecodeAfterCodeword(message: seq<bool>, c: nat, code: seq<bool>)
    requires 1 <= c <= 7 && c <= |message|
    requires Decoding(code) == Ok(Decoded(message[c..], 0))
    ensures Decoding(EncodeChunk(message[..c]) + code) == Ok(Decoded(message, 0))
  {
    DecodingCons(EncodeChunk(message[..c]), code);
    DecodeEncodedChunk(message[..c]);
    assert message[..c] + message[c..] == message;
  }

  /** Without noise, every block decodes to its chunk and no syndrome bit is counted. */
  lemma {:induction false} RoundTrip(message: seq<bool>)
    ensures Decoding(Encoding(message)) == Ok(Decoded(message, 0))
    decreases |message|
  {
    if message != [] {
      var c := Min(7, |message|);
      EncodingCons(message);
      RoundTrip(message[c..]);
      DecodeAfterCodeword(message, c, Encoding(message[c..]));
    }
  }

  /** As written, the final cut keeps only the first `len(encoded) // 20 * 12`
      bits of a correctly decoded message. */
  lemma AsWrittenKeepsPrefix(message: seq<bool>)
    ensures DecodingAsWritten(Encoding(message)) ==
      Ok(Decoded(Slice(message, 0, |Encoding(message)| / 20 * 12), 0))
  {
    RoundTrip(message);
  }

  /** A message of one to seven bits is encoded in one 15-bit block, and
      15 // 20 * 12 = 0: as written, the decoder returns nothing although
      decoding the block recovers the message. */
  lemma ShortMessageLost(message: seq<bool>)
    requires 1 <= |message| <= 7
    ensures Decoding(Encoding(message)) == Ok(Decoded(message, 0))
    ensures DecodingAsWritten(Encoding(message)) == Ok(Decoded([], 0))
  {
    RoundTrip(message);
    EncodingLength(message);
    assert |Encoding(message)| == 15;
  }

  /** The counterexample of the finding: the one-bit message [true]. */
  lemma OneBitMessageLost()
    ensures DecodingAsWritten(Encoding([true])) == Ok(Decoded([], 0))
    ensures DecodingAsWritten(Encoding([true])) != Ok(Decoded([true], 0))
  {
    ShortMessageLost([true]);
  }

  /** One flipped header or data bit j < 11 in a block is undone; the error
      count grows by the number of one bits of j + 1, which is not always 1. */
  lemma ChunkSingleDataError(chunk: seq<bool>, j: nat)
    requires 1 <= |chunk| <= 7 && j < K
    ensures Fixed(Flip(EncodeChunk(chunk), j)) == EncodeChunk(chunk)
    ensures DecodeChunk(Flip(EncodeChunk(chunk), j)) == Decoded(chunk, Weight(LsbBits(j + 1, R)))
    ensures Weight(LsbBits(j + 1, R)) > 0
  {
    var cw := EncodeChunk(chunk);
    var bad := Flip(cw, j);
    HammingDataError(MessageVector(chunk), R, j);
    Pow2Table();
    LsbBitsOfValue(Syn(bad));
    LsbValueZero(Syn(bad));
    assert Flip(bad, j) == cw;
    DecodeEncodedChunk(chunk);
  }

  /** A flip at position 6 is counted as three errors: the syndrome of value 7 has three one bits. */
  lemma FlipSevenCountsThree(chunk: seq<bool>)
    requires 1 <= |chunk| <= 7
    ensures DecodeChunk(Flip(EncodeChunk(chunk), 6)) == Decoded(chunk, 3)
  {
    ChunkSingleDataError(chunk, 6);
    var s := LsbBits(7, R);
    assert s[0] && s[1] && s[2] && !s[3];
    assert s == [true, true, true, false];
    assert Weight(s[3..]) == 0;
    assert Weight(s[1..]) == 2;
    assert Weight(s) == 3;
  }

  lemma BlockInRange(len: nat, b: nat, j: nat)
    requires j < N && b < (len + 6) / 7
    ensures N * b + j < N * ((len + 6) / 7)
  {
    var q := (len + 6) / 7;
    assert N * b + N <= N * q;
  }

  /** A flip inside the first block of a word changes only what that block decodes to. */
  lemma FlipFirstBlock(x: seq<bool>, y: seq<bool>, j: nat, dx: Decoded, dy: Decoded)
    requires |x| == N && j < N
    requires DecodeChunk(Flip(x, j)) == dx && Decoding(y) == Ok(dy)
    ensures Decoding(Flip(x + y, j)) == Ok(Plus(dx, dy))
  {
    FlipConcat(x, y, j);
    DecodingCons(Flip(x, j), y);
  }

  /** A flip behind the first block of a word changes only what the rest decodes to. */
  lemma FlipLaterBlock(x: seq<bool>, y: seq<bool>, q: nat, dx: Decoded, dy: Decoded)
    requires |x| == N && q < |y|
    requires DecodeChunk(x) == dx && Decoding(Flip(y, q)) == Ok(dy)
    ensures Decoding(Flip(x + y, N + q)) == Ok(Plus(dx, dy))
  {
    FlipConcat(x, y, N + q);
    DecodingCons(x, Flip(y, q));
  }

  lemma SplitMessage(message: seq<bool>, c: nat, e: nat)
    requires c <= |message|
    ensures Plus(Decoded(message[..c], e), Decoded(message[c..], 0)) == Decoded(message, e)
    ensures Plus(Decoded(message[..c], 0), Decoded(message[c..], e)) == Decoded(message, e)
  {
    assert message[..c] + message[c..] == message;
  }

  /** One flip at a header or data position of the first block, and a clean rest:
      the whole message comes back. */
  lemma FlipHead(message: seq<bool>, c: nat, j: nat)
    requires 1 <= c <= 7 && c <= |message| && j < K
    ensures Decoding(Flip(EncodeChunk(message[..c]) + Encoding(message[c..]), j)) == Ok(Decoded(message, Weight(LsbBits(j + 1, R))))
  {
    var e := Weight(LsbBits(j + 1, R));
    RoundTrip(message[c..]);
    ChunkSingleDataError(message[..c], j);
    FlipFirstBlock(EncodeChunk(message[..c]), Encoding(message[c..]), j, Decoded(message[..c], e), Decoded(message[c..], 0));
    SplitMessage(message, c, e);
  }

  /** A clean first block, and one flip in the rest. */
  lemma FlipTail(message: seq<bool>, c: nat, q: nat, e: nat)
    requires 1 <= c <= 7 && c <= |message| && q < |Encoding(message[c..])|
    requires Decoding(Flip(Encoding(message[c..]), q)) == Ok(Decoded(message[c..], e))
    ensures Decoding(Flip(EncodeChunk(message[..c]) + Encoding(message[c..]), N + q)) == Ok(Decoded(message, e))
  {
    DecodeEncodedChunk(message[..c]);
    FlipLaterBlock(EncodeChunk(message[..c]), Encoding(message[c..]), q, Decoded(message[..c], 0), Decoded(message[c..], e));
    SplitMessage(message, c, e);
  }

  /** A single flip at message position j < 11 of block b is corrected: the
      whole message comes back, with the one bits of j + 1 as error count. */
  lemma {:induction false} SingleDataErrorCorrected(message: seq<bool>, b: nat, j: nat)
    requires j < K && b < (|message| + 6) / 7
    ensures N * b + j < |Encoding(message)| &&
      Decoding(Flip(Encoding(message), N * b + j)) == Ok(Decoded(message, Weight(LsbBits(j + 1, R))))
    decreases |message|
  {
    EncodingLength(message);
    BlockInRange(|message|, b, j);
    ChunkCount(|message|);
    var c := Min(7, |message|);
    var e := Weight(LsbBits(j + 1, R));
    EncodingCons(message);
    if b == 0 {
      FlipHead(message, c, j);
    } else {
      SingleDataErrorCorrected(message[c..], b - 1, j);
      FlipTail(message, c, N * (b - 1) + j, e);
    }
  }

  /** A single flip at parity position 11 + t has syndrome value 2^t, which
      points into the message: the attempt flips bit 2^t - 1 as well. */
  lemma ParityErrorMiscorrected(chunk: seq<bool>, t: nat)
    requires 1 <= |chunk| <= 7 && t < R
    ensures Pow2(t) <= 8
    ensures var bad := Flip(EncodeChunk(chunk), K + t);
      Fixed(bad) == Flip(bad, Pow2(t) - 1) && Weight(Syn(Fixed(bad))) == 0
  {
    var bad := Flip(EncodeChunk(chunk), K + t);
    HammingParityError(MessageVector(chunk), R, t);
    Pow2Mono(t, R - 1);
    Pow2Table();
    HammingStepToZero(bad, K, R);
    LsbValueZero(Syn(Flip(bad, Pow2(t) - 1)));
  }

  lemma BlocksAfter(len: nat)
    requires len >= N
    ensures (len - N) / N + 1 == len / N && (len - N) % N == len % N
  {
  }

  /** The decoder returns a result exactly for whole 15-bit chunks. */
  lemma {:induction false} DecodingShape(w: seq<bool>)
    ensures Decoding(w).Ok? <==> |w| % N == 0
    decreases |w|
  {
    if |w| >= N {
      DecodingShape(w[N..]);
      BlocksAfter(|w|);
    }
  }

  /** Each block adds at most 4 to the error count. */
  lemma {:induction false} ErrorCountBounded(w: seq<bool>)
    ensures Decoding(w).Ok? ==> Decoding(w).value.errorCount <= R * (|w| / N)
    decreases |w|
  {
    if |w| >= N {
      ErrorCountBounded(w[N..]);
      BlocksAfter(|w|);
      WeightBound(Syn(w[..N]));
    }
  }

  // ------------------------------------------------------- matrix dimensions

  /** `create_generator_matrix` as written: the parity matrix is declared 4×15,
      so its transpose has 15 rows and cannot be put beside the 11×11 identity. */
  function GeneratorShapeAsWritten(): Result<Shape>
  {
    SideBySide(Shape(K, K), Transpose(Shape(R, N)))
  }

  /** `create_h_matrix` and `calculate_syndrome` as written: the 4×15 parity
      matrix beside the 4×4 identity is 4×19, which cannot multiply a 15-bit column. */
  function SyndromeShapeAsWritten(): Result<Shape>
  {
    ProductOf(SideBySide(Shape(R, N), Shape(R, R)), Shape(N, 1))
  }

  lemma ShapesFailAsWritten()
    ensures GeneratorShapeAsWritten() == Err(ShapeMismatch)
    ensures SideBySide(Shape(R, N), Shape(R, R)) == Ok(Shape(R, N + R))
    ensures SyndromeShapeAsWritten() == Err(ShapeMismatch)
  {
  }

  /** With the parity matrix 4×11, as only its first 11 columns are ever
      filled, G is 11×15 and H is 4×15, the shapes `EncodeMessage` and
      `DecodeMessage` are given. */
  lemma IntendedShapes()
    ensures SideBySide(Shape(K, K), Transpose(Shape(R, K))) == Ok(Shape(K, N))
    ensures ProductOf(SideBySide(Shape(R, K), Shape(R, R)), Shape(N, 1)) == Ok(Shape(R, 1))
  {
  }
}
