/** Codes/HammingCodeNumPu3126.py: a (31,26) Hamming block code. The message
    is cut into 21-bit chunks; each block is a 5-bit most-significant-first
    padding count, the chunk zero-padded to 21 bits, and 5 parity bits. The
    decoder makes one correction attempt per 31-bit chunk, in place, counts
    the chunks with a non-zero syndrome and those whose syndrome is zero after
    the attempt, and reports ('Error') a chunk whose kept bits and padding
    count do not add up to 21. */
module Hamming3126 {
  import opened Bits
  import opened Systematic
  import opened Outcome
  import opened Shapes

  const K: nat := 26
  const R: nat := 5
  const N: nat := 31

  /** What the decoder returns, plus the number of 'Error' lines it prints. */
  datatype Decoded = Decoded(message: seq<bool>, errorsFound: nat, errorsCorrected: nat, reports: nat)

  const None: Decoded := Decoded([], 0, 0, 0)

  function Plus(a: Decoded, b: Decoded): Decoded
  {
    Decoded(a.message + b.message, a.errorsFound + b.errorsFound,
            a.errorsCorrected + b.errorsCorrected, a.reports + b.reports)
  }

  lemma PlusNone(x: Decoded)
    ensures Plus(None, x) == x == Plus(x, None)
  {
    ConcatNil(x.message);
  }

  lemma PlusAssoc(a: Decoded, b: Decoded, c: Decoded)
    ensures Plus(Plus(a, b), c) == Plus(a, Plus(b, c))
  {
    ConcatAssoc(a.message, b.message, c.message);
  }

  // ------------------------------------------------------------------ encode

  function PaddingLength(chunk: seq<bool>): nat
  {
    if |chunk| < 21 then 21 - |chunk| else 0
  }

  /** The 26-bit message vector of one chunk: header, then the chunk padded to 21 bits. */
  function MessageVector(chunk: seq<bool>): (r: seq<bool>)
    requires 1 <= |chunk| <= 21
    ensures |r| == K
  {
    var p := PaddingLength(chunk);
    Pow2Table();
    BinZfillFits(p, 5);
    BinZfill(p, 5) + (chunk + Zeros(p))
  }

  function EncodeChunk(chunk: seq<bool>): (r: seq<bool>)
    requires 1 <= |chunk| <= 21
    ensures |r| == N
  {
    EncodeBlock(MessageVector(chunk), HammingParity, R)
  }

  /** What `encode_message` returns: the codewords of the 21-bit chunks, in order. */
  function Encoding(message: seq<bool>): seq<bool>
    decreases |message|
  {
    if message == [] then []
    else
      var c := Min(21, |message|);
      EncodeChunk(message[..c]) + Encoding(message[c..])
  }

  /** Encoding is systematic: a block starts with the 5-bit padding count p,
      the chunk and p zeros. */
  lemma EncodeChunkSystematic(chunk: seq<bool>)
    requires 1 <= |chunk| <= 21
    ensures var p := PaddingLength(chunk);
      var cw := EncodeChunk(chunk);
      cw[..K] == MessageVector(chunk) == MsbBits(p, 5) + chunk + Zeros(p) &&
      MsbValue(cw[..5]) == p
  {
    var p := PaddingLength(chunk);
    Pow2Table();
    BinZfillFits(p, 5);
    var cw := EncodeChunk(chunk);
    assert cw[..5] == MessageVector(chunk)[..5] == BinZfill(p, 5);
  }

  lemma ChunkCount(len: nat)
    requires len > 0
    ensures (len + 20) / 21 == 1 + (len - Min(21, len) + 20) / 21
  {
    if len >= 21 {
      assert len + 20 == (len - 21 + 20) + 21;
    }
  }

  /** The encoded length is 31 per started group of 21 message bits. */
  lemma {:induction false} EncodingLength(message: seq<bool>)
    ensures |Encoding(message)| == 31 * ((|message| + 20) / 21)
    decreases |message|
  {
    if message != [] {
      var c := Min(21, |message|);
      EncodingLength(message[c..]);
      ChunkCount(|message|);
    }
  }

  lemma EncodingCons(message: seq<bool>)
    requires message != []
    ensures var c := Min(21, |message|);
      Encoding(message) == EncodeChunk(message[..c]) + Encoding(message[c..])
  {
  }

  lemma EncodingFrom(message: seq<bool>, i: nat, end: nat)
    requires i < |message| && end == Min(i + 21, |message|)
    ensures Encoding(message[i..]) == EncodeChunk(message[i..end]) + Encoding(message[end..])
  {
    var rest := message[i..];
    var c := end - i;
    assert c == Min(21, |rest|);
    assert rest[..c] == message[i..end];
    assert rest[c..] == message[end..];
    EncodingCons(rest);
  }

  /** The vector the loop body multiplies by G is the message vector of the chunk. */
  lemma PaddedMessage(original: seq<bool>, chunk: seq<bool>, header: seq<bool>, padded: seq<bool>)
    requires 1 <= |original| <= 21
    requires chunk == if |original| < 21 then original + Zeros(21 - |original|) else original
    requires header == BinZfill(PaddingLength(original), 5)
    requires padded == header + chunk
    ensures padded == MessageVector(original)
  {
  }

  /** The loop body's product with G is the codeword of the chunk. */
  lemma ChunkProduct(original: seq<bool>, chunk: seq<bool>, header: seq<bool>, padded: seq<bool>, g: array2<bool>)
    requires IsGenerator(g, HammingParity, K, R)
    requires 1 <= |original| <= 21
    requires chunk == if |original| < 21 then original + Zeros(21 - |original|) else original
    requires header == BinZfill(PaddingLength(original), 5)
    requires padded == header + chunk
    ensures |padded| == K && VecTimes(padded, g) == EncodeChunk(original)
  {
    PaddedMessage(original, chunk, header, padded);
    VecTimesGenerator(padded, g, HammingParity, R);
  }

  /** One pass of `encode_message`'s loop keeps its invariant. */
  lemma EncodeStep(message: seq<bool>, i: nat, end: nat, encoded: seq<bool>, encodedChunk: seq<bool>)
    requires i < |message| && end == Min(i + 21, |message|)
    requires encoded + Encoding(message[i..]) == Encoding(message)
    requires encodedChunk == EncodeChunk(message[i..end])
    ensures (encoded + encodedChunk) + Encoding(message[end..]) == Encoding(message)
  {
    EncodingFrom(message, i, end);
    ConcatAssoc(encoded, encodedChunk, Encoding(message[end..]));
  }

  /** `encode_message`, using the generator matrix built by `create_generator_matrix`. */
  method EncodeMessage(message: seq<bool>, g: array2<bool>) returns (encoded: seq<bool>)
    requires IsGenerator(g, HammingParity, K, R)
    ensures encoded == Encoding(message)
  {
    encoded := [];
    var i := 0;
    while i < |message|
      invariant 0 <= i <= |message|
      invariant encoded + Encoding(message[i..]) == Encoding(message)
    {
      var end := Min(i + 21, |message|);
      var chunk := message[i..end];
      ghost var original := chunk;
      var actualLength := |chunk|;
      var paddingLength := if actualLength < 21 then 21 - actualLength else 0;
      if paddingLength > 0 {
        chunk := chunk + Zeros(paddingLength);
      }
      var header := BinZfill(paddingLength, 5);
      var paddedMessage := header + chunk;
      ChunkProduct(original, chunk, header, paddedMessage, g);
      var encodedChunk := VecTimes(paddedMessage, g);
      assert encodedChunk == EncodeChunk(message[i..end]);
      EncodeStep(message, i, end, encoded, encodedChunk);
      encoded := encoded + encodedChunk;
      i := i + actualLength;
      assert i == end;
    }
  }

  // ------------------------------------------------------------------ decode

  function Syn(c: seq<bool>): seq<bool>
    requires |c| == N
  {
    Syndrome(c, HammingParity, K, R)
  }

  /** The chunk after the single correction attempt. */
  function Fixed(c: seq<bool>): (r: seq<bool>)
    requires |c| == N
    ensures |r| == N
  {
    if Weight(Syn(c)) != 0 then Corrected(c, Syn(c), N) else c
  }

  /** The bits `corrected_chunk[5:26 - padding_length]` keep; the stop index is
      negative, and so counts from the end, for a padding count above 26. */
  function Kept(fixed: seq<bool>): seq<bool>
    requires |fixed| == N
  {
    Slice(fixed, 5, 26 - MsbValue(fixed[..5]))
  }

  /** One block of `decode_message`. */
  function DecodeChunk(c: seq<bool>): Decoded
    requires |c| == N
  {
    var found := Weight(Syn(c)) != 0;
    var fixed := Fixed(c);
    var kept := Kept(fixed);
    Decoded(kept, ToNat(found), ToNat(found && Weight(Syn(fixed)) == 0),
            if |kept| + MsbValue(fixed[..5]) != 21 then 1 else 0)
  }

  /** The result once the blocks before `rest` have given `done`. */
  function Then(done: Decoded, rest: Result<Decoded>): Result<Decoded>
  {
    match rest
    case Err(e) => Err(e)
    case Ok(d) => Ok(Plus(done, d))
  }

  /** The decoder's own copy of the received list after decoding: every chunk
      replaced by its corrected form. */
  function CorrectedWord(w: seq<bool>): seq<bool>
    decreases |w|
  {
    if |w| < N then w else Fixed(w[..N]) + CorrectedWord(w[N..])
  }

  /** What the decoder computes: the 31-bit chunks decoded in order; a
      trailing chunk shorter than 31 bits makes `np.dot` raise. */
  function Decoding(w: seq<bool>): Result<Decoded>
    decreases |w|
  {
    if |w| == 0 then Ok(None)
    else if |w| < N then Err(ShapeMismatch)
    else Then(DecodeChunk(w[..N]), Decoding(w[N..]))
  }

  /** The body of `decode_message`'s loop for the chunk at off: one correction
      attempt on the view a[off..off + 31], then header and padding are stripped. */
  method DecodeChunkInPlace(a: array<bool>, off: nat, h: array2<bool>) returns (piece: Decoded)
    requires off + N <= a.Length
    requires IsCheckMatrix(h, HammingParity, K, R)
    modifies a
    ensures a[..] == old(a[..off]) + Fixed(old(a[off..off + N])) + old(a[off + N..])
    ensures piece == DecodeChunk(old(a[off..off + N]))
  {
    var chunk := a[off..off + N];
    TimesVecCheck(h, chunk, HammingParity, K, R);
    var syndrome := TimesVec(h, chunk);
    var errorsFound, errorsCorrected := 0, 0;
    if Weight(syndrome) != 0 {
      errorsFound := 1;
      CorrectErrors(a, off, syndrome, N);
      var correctedChunk := a[off..off + N];
      TimesVecCheck(h, correctedChunk, HammingParity, K, R);
      syndrome := TimesVec(h, correctedChunk);
      if Weight(syndrome) == 0 {
        errorsCorrected := 1;
      }
    } else {
      assert a[..] == old(a[..off]) + chunk + old(a[off + N..]);
    }
    var correctedChunk := a[off..off + N];
    var paddingLength: int := MsbValue(correctedChunk[..5]);
    var originalMessage := Slice(correctedChunk, 5, 26 - paddingLength);
    var report := 0;
    if |originalMessage| + paddingLength != 21 {
      report := 1;
    }
    piece := Decoded(originalMessage, errorsFound, errorsCorrected, report);
  }

  lemma ThenNone(r: Result<Decoded>)
    ensures Then(None, r) == r
  {
    if r.Ok? {
      PlusNone(r.value);
    }
  }

  lemma ThenAssoc(a: Decoded, b: Decoded, r: Result<Decoded>)
    ensures Then(a, Then(b, r)) == Then(Plus(a, b), r)
  {
    if r.Ok? {
      PlusAssoc(a, b, r.value);
    }
  }

  /** Decoding a word proceeds block by block. */
  lemma DecodingCons(x: seq<bool>, y: seq<bool>)
    requires |x| == N
    ensures Decoding(x + y) == Then(DecodeChunk(x), Decoding(y))
  {
    assert (x + y)[..N] == x && (x + y)[N..] == y;
  }

  lemma CorrectedWordCons(x: seq<bool>, y: seq<bool>)
    requires |x| == N
    ensures CorrectedWord(x + y) == Fixed(x) + CorrectedWord(y)
  {
    assert (x + y)[..N] == x && (x + y)[N..] == y;
  }

  lemma DecodeStep(w: seq<bool>, i: nat, done: Decoded)
    requires i + N <= |w|
    requires Then(done, Decoding(w[i..])) == Decoding(w)
    ensures Then(Plus(done, DecodeChunk(w[i..i + N])), Decoding(w[i + N..])) == Decoding(w)
  {
    assert w[i..] == w[i..i + N] + w[i + N..];
    DecodingCons(w[i..i + N], w[i + N..]);
    ThenAssoc(done, DecodeChunk(w[i..i + N]), Decoding(w[i + N..]));
  }

  lemma CorrectStep(w: seq<bool>, i: nat, prefix: seq<bool>)
    requires i + N <= |w|
    requires prefix + CorrectedWord(w[i..]) == CorrectedWord(w)
    ensures prefix + Fixed(w[i..i + N]) + CorrectedWord(w[i + N..]) == CorrectedWord(w)
  {
    assert w[i..] == w[i..i + N] + w[i + N..];
    CorrectedWordCons(w[i..i + N], w[i + N..]);
    ConcatAssoc(prefix, Fixed(w[i..i + N]), CorrectedWord(w[i + N..]));
  }

  /** One pass of `decode_message`'s loop keeps its invariants. */
  lemma LoopStep(w: seq<bool>, i: nat, done: Decoded, before: seq<bool>, after: seq<bool>)
    requires i + N <= |w| == |before| && before[i..] == w[i..]
    requires Then(done, Decoding(w[i..])) == Decoding(w)
    requires before[..i] + CorrectedWord(w[i..]) == CorrectedWord(w)
    requires after == before[..i] + Fixed(before[i..i + N]) + before[i + N..]
    ensures before[i..i + N] == w[i..i + N] && after[i + N..] == w[i + N..]
    ensures Then(Plus(done, DecodeChunk(w[i..i + N])), Decoding(w[i + N..])) == Decoding(w)
    ensures after[..i + N] + CorrectedWord(w[i + N..]) == CorrectedWord(w)
  {
    assert before[i..i + N] == w[i..i + N] by { assert before[i..][..N] == w[i..][..N]; }
    assert after[i + N..] == w[i + N..] by { assert before[i..][N..] == w[i..][N..]; }
    assert after[..i + N] == before[..i] + Fixed(w[i..i + N]);
    DecodeStep(w, i, done);
    CorrectStep(w, i, before[..i]);
  }

  lemma LoopDone(w: seq<bool>, i: nat, done: Decoded)
    requires i == |w|
    requires Then(done, Decoding(w[i..])) == Decoding(w)
    ensures Decoding(w) == Ok(done)
  {
    assert w[i..] == [];
    PlusNone(done);
  }

  lemma LoopDoneInPlace(w: seq<bool>, final: seq<bool>, i: nat)
    requires i == |w| == |final|
    requires final[..i] + CorrectedWord(w[i..]) == CorrectedWord(w)
    ensures final == CorrectedWord(w)
  {
    assert w[i..] == [] && final[..i] == final;
    ConcatNil(final);
  }

  lemma ShortTail(w: seq<bool>, i: nat, done: Decoded)
    requires i < |w| < i + N
    requires Then(done, Decoding(w[i..])) == Decoding(w)
    ensures Decoding(w) == Err(ShapeMismatch)
  {
  }

  /** `decode_message` on the decoder's array: the corrections are made in place. */
  method DecodeMessage(a: array<bool>, h: array2<bool>) returns (r: Result<Decoded>)
    requires IsCheckMatrix(h, HammingParity, K, R)
    modifies a
    ensures r == Decoding(old(a[..]))
    ensures r.Ok? ==> a[..] == CorrectedWord(old(a[..]))
  {
    ghost var w := a[..];
    // decoded_message, errors_found, errors_corrected and the 'Error' lines so far
    var done := None;
    var i := 0;
    assert w[i..] == w && a[..i] == [];
    ThenNone(Decoding(w));
    ConcatNil(CorrectedWord(w));
    while i < a.Length
      invariant 0 <= i <= a.Length
      invariant a[i..] == w[i..]
      invariant Then(done, Decoding(w[i..])) == Decoding(w)
      invariant a[..i] + CorrectedWord(w[i..]) == CorrectedWord(w)
    {
      if i + N > a.Length {
        ShortTail(w, i, done);
        return Err(ShapeMismatch);
      }
      ghost var before := a[..];
      var piece := DecodeChunkInPlace(a, i, h);
      LoopStep(w, i, done, before, a[..]);
      done := Plus(done, piece);
      i := i + N;
    }
    LoopDone(w, i, done);
    LoopDoneInPlace(w, a[..], i);
    return Ok(done);
  }

  // -------------------------------------------------------------- properties

  /** A syndrome of value s in 27..31 points at parity bit s - 27; flipping it
      leaves a non-zero syndrome. */
  lemma ParityAttemptFails(c: seq<bool>)
    requires |c| == N && K < LsbValue(Syn(c)) <= N
    ensures Weight(Syn(Flip(c, LsbValue(Syn(c)) - 1))) != 0
  {
    var S := Syn(c);
    var s := LsbValue(S);
    LsbValueBound(S);
    Pow2Table();
    HammingStepOnParity(c, K, R);
    LsbBitsOfValue(S);
    var t := s - 1 - K;
    assert S[t] == Bit(s, t);
    LsbFlip(S, t);
    LsbValueZero(Flip(S, t));
    if s == 27 {
      assert Bit(27, 0);
    } else if s == 28 {
      assert Bit(28, 1) == false && Pow2(1) == 2;
    } else if s == 29 {
      assert Bit(29, 2) && Pow2(2) == 4;
    } else if s == 30 {
      assert Bit(30, 3) && Pow2(3) == 8;
    } else {
      assert Bit(31, 4) && Pow2(4) == 16;
    }
  }

  /** A chunk counts as corrected exactly when its syndrome is non-zero and
      points into the header or data bits (value at most 26); a syndrome
      pointing at a parity bit stays non-zero after the attempt. */
  lemma CorrectedIffSyndromeInData(c: seq<bool>)
    requires |c| == N
    ensures DecodeChunk(c).errorsFound == 1 <==> Weight(Syn(c)) != 0
    ensures DecodeChunk(c).errorsCorrected == 1 <==> 0 < LsbValue(Syn(c)) <= K
    ensures DecodeChunk(c).errorsCorrected <= DecodeChunk(c).errorsFound <= 1
  {
    var S := Syn(c);
    var s := LsbValue(S);
    LsbValueZero(S);
    LsbValueBound(S);
    Pow2Table();
    if 0 < s <= K {
      HammingStepToZero(c, K, R);
      LsbValueZero(Zeros(R));
    } else if s > K {
      ParityAttemptFails(c);
    }
  }

  /** 'Error' is printed for a block exactly when its padding count exceeds 21:
      up to 21 the slice keeps 21 - p bits; from 22 to 26 it keeps none; above
      26 the negative stop index keeps 52 - p bits. */
  lemma ReportIffPaddingTooLarge(c: seq<bool>)
    requires |c| == N
    ensures var p := MsbValue(Fixed(c)[..5]);
      (DecodeChunk(c).reports == 1 <==> p > 21) &&
      |DecodeChunk(c).message| == (if p <= 21 then 21 - p else if p <= 26 then 0 else 52 - p)
  {
    var fixed := Fixed(c);
    MsbValueBound(fixed[..5]);
    Pow2Table();
  }

  lemma DecodeEncodedChunk(chunk: seq<bool>)
    requires 1 <= |chunk| <= 21
    ensures Fixed(EncodeChunk(chunk)) == EncodeChunk(chunk)
    ensures DecodeChunk(EncodeChunk(chunk)) == Decoded(chunk, 0, 0, 0)
  {
    var cw := EncodeChunk(chunk);
    EncodeChunkSystematic(chunk);
    CodewordSyndrome(MessageVector(chunk), HammingParity, R);
    LsbValueZero(Syn(cw));
    assert Kept(cw) == chunk;
  }

  /** The block of a message's first c bits, in front of a word that decodes cleanly
      to the rest of the message, decodes cleanly to the whole message. */
  lemma DecodeAfterCodeword(message: seq<bool>, c: nat, code: seq<bool>)
    requires 1 <= c <= 21 && c <= |message|
    requires Decoding(code) == Ok(Decoded(message[c..], 0, 0, 0))
    ensures Decoding(EncodeChunk(message[..c]) + code) == Ok(Decoded(message, 0, 0, 0))
  {
    DecodingCons(EncodeChunk(message[..c]), code);
    DecodeEncodedChunk(message[..c]);
    assert message[..c] + message[c..] == message;
  }

  /** A codeword in front of a word is left as it is. */
  lemma CorrectedAfterCodeword(chunk: seq<bool>, code: seq<bool>)
    requires 1 <= |chunk| <= 21
    ensures CorrectedWord(EncodeChunk(chunk) + code) == EncodeChunk(chunk) + CorrectedWord(code)
  {
    CorrectedWordCons(EncodeChunk(chunk), code);
    DecodeEncodedChunk(chunk);
  }

  /** Without noise, decoding returns exactly the encoded bits, finds no error,
      prints nothing and leaves the decoder's own copy of the received list unchanged. */
  lemma {:induction false} RoundTrip(message: seq<bool>)
    ensures Decoding(Encoding(message)) == Ok(Decoded(message, 0, 0, 0))
    ensures CorrectedWord(Encoding(message)) == Encoding(message)
    decreases |message|
  {
    if message != [] {
      var c := Min(21, |message|);
      EncodingCons(message);
      RoundTrip(message[c..]);
      DecodeAfterCodeword(message, c, Encoding(message[c..]));
      CorrectedAfterCodeword(message[..c], Encoding(message[c..]));
    }
  }

  /** One flipped header or data bit in a block is found and undone. */
  lemma ChunkSingleDataError(chunk: seq<bool>, j: nat)
    requires 1 <= |chunk| <= 21 && j < K
    ensures Fixed(Flip(EncodeChunk(chunk), j)) == EncodeChunk(chunk)
    ensures DecodeChunk(Flip(EncodeChunk(chunk), j)) == Decoded(chunk, 1, 1, 0)
  {
    var cw := EncodeChunk(chunk);
    var bad := Flip(cw, j);
    HammingDataError(MessageVector(chunk), R, j);
    Pow2Table();
    LsbValueZero(Syn(bad));
    assert Flip(bad, j) == cw;
    DecodeEncodedChunk(chunk);
  }

  lemma BlockInRange(len: nat, b: nat, j: nat)
    requires j < N && b < (len + 20) / 21
    ensures 31 * b + j < 31 * ((len + 20) / 21)
  {
    var q := (len + 20) / 21;
    assert 31 * b + 31 <= 31 * q;
  }

  /** A flip inside the first block of a word changes only what that block decodes to. */
  lemma FlipFirstBlock(x: seq<bool>, y: seq<bool>, j: nat, dx: Decoded, dy: Decoded)
    requires |x| == N && j < N
    requires DecodeChunk(Flip(x, j)) == dx && Decoding(y) == Ok(dy)
    ensures Decoding(Flip(x + y, j)) == Ok(Plus(dx, dy))
  {
    FlipConcat(x, y, j);
    DecodingCons(Flip(x, j), y);
  }

  /** A flip behind the first block of a word changes only what the rest decodes to. */
  lemma FlipLaterBlock(x: seq<bool>, y: seq<bool>, q: nat, dx: Decoded, dy: Decoded)
    requires |x| == N && q < |y|
    requires DecodeChunk(x) == dx && Decoding(Flip(y, q)) == Ok(dy)
    ensures Decoding(Flip(x + y, N + q)) == Ok(Plus(dx, dy))
  {
    FlipConcat(x, y, N + q);
    DecodingCons(x, Flip(y, q));
  }

  lemma SplitMessage(message: seq<bool>, c: nat)
    requires c <= |message|
    ensures Plus(Decoded(message[..c], 1, 1, 0), Decoded(message[c..], 0, 0, 0)) == Decoded(message, 1, 1, 0)
    ensures Plus(Decoded(message[..c], 0, 0, 0), Decoded(message[c..], 1, 1, 0)) == Decoded(message, 1, 1, 0)
  {
    assert message[..c] + message[c..] == message;
  }

  /** One flip at a header or data position of the first block, and a clean rest:
      the whole message comes back. */
  lemma FlipHead(message: seq<bool>, c: nat, j: nat)
    requires 1 <= c <= 21 && c <= |message| && j < K
    ensures Decoding(Flip(EncodeChunk(message[..c]) + Encoding(message[c..]), j)) == Ok(Decoded(message, 1, 1, 0))
  {
    RoundTrip(message[c..]);
    ChunkSingleDataError(message[..c], j);
    FlipFirstBlock(EncodeChunk(message[..c]), Encoding(message[c..]), j, Decoded(message[..c], 1, 1, 0), Decoded(message[c..], 0, 0, 0));
    SplitMessage(message, c);
  }

  /** A clean first block, and one flip in the rest. */
  lemma FlipTail(message: seq<bool>, c: nat, q: nat)
    requires 1 <= c <= 21 && c <= |message| && q < |Encoding(message[c..])|
    requires Decoding(Flip(Encoding(message[c..]), q)) == Ok(Decoded(message[c..], 1, 1, 0))
    ensures Decoding(Flip(EncodeChunk(message[..c]) + Encoding(message[c..]), N + q)) == Ok(Decoded(message, 1, 1, 0))
  {
    DecodeEncodedChunk(message[..c]);
    FlipLaterBlock(EncodeChunk(message[..c]), Encoding(message[c..]), q, Decoded(message[..c], 0, 0, 0), Decoded(message[c..], 1, 1, 0));
    SplitMessage(message, c);
  }

  /** A single flip at message position j < 26 of block b is found and
      corrected: the decoder returns the original bits with both counters at 1. */
  lemma {:induction false} SingleDataErrorCorrected(message: seq<bool>, b: nat, j: nat)
    requires j < K && b < (|message| + 20) / 21
    ensures 31 * b + j < |Encoding(message)| &&
      Decoding(Flip(Encoding(message), 31 * b + j)) == Ok(Decoded(message, 1, 1, 0))
    decreases |message|
  {
    EncodingLength(message);
    BlockInRange(|message|, b, j);
    ChunkCount(|message|);
    var c := Min(21, |message|);
    EncodingCons(message);
    if b == 0 {
      FlipHead(message, c, j);
    } else {
      SingleDataErrorCorrected(message[c..], b - 1, j);
      FlipTail(message, c, 31 * (b - 1) + j);
    }
  }

  /** A non-zero syndrome value s up to 31 makes the attempt flip bit s - 1. */
  lemma FixedFlips(c: seq<bool>)
    requires |c| == N && 0 < LsbValue(Syn(c)) <= N
    ensures Fixed(c) == Flip(c, LsbValue(Syn(c)) - 1)
  {
    LsbValueZero(Syn(c));
  }

  /** A single flip at parity position 26 + t has syndrome value 2^t, which
      points into the message: the attempt flips bit 2^t - 1 as well, the
      syndrome becomes zero, and the block is counted as corrected although
      it now differs from the codeword in a header or data bit. */
  lemma ParityErrorMiscorrected(chunk: seq<bool>, t: nat)
    requires 1 <= |chunk| <= 21 && t < R
    ensures Pow2(t) <= 16
    ensures var bad := Flip(EncodeChunk(chunk), K + t);
      Fixed(bad) == Flip(bad, Pow2(t) - 1) && DecodeChunk(bad).errorsCorrected == 1
  {
    var bad := Flip(EncodeChunk(chunk), K + t);
    HammingParityError(MessageVector(chunk), R, t);
    Pow2Mono(t, R - 1);
    Pow2Table();
    FixedFlips(bad);
    CorrectedIffSyndromeInData(bad);
  }

  lemma BlocksAfter(len: nat)
    requires len >= N
    ensures (len - N) / N + 1 == len / N && (len - N) % N == len % N
  {
  }

  /** The decoder returns a result exactly for whole 31-bit chunks. */
  lemma {:induction false} DecodingShape(w: seq<bool>)
    ensures Decoding(w).Ok? <==> |w| % N == 0
    decreases |w|
  {
    if |w| >= N {
      DecodingShape(w[N..]);
      BlocksAfter(|w|);
    }
  }

  /** At most one error is found and at most one corrected per block. */
  lemma {:induction false} CountersBounded(w: seq<bool>)
    ensures Decoding(w).Ok? ==> var d := Decoding(w).value;
      d.errorsCorrected <= d.errorsFound <= |w| / N && d.reports <= |w| / N
    decreases |w|
  {
    if |w| >= N {
      CountersBounded(w[N..]);
      BlocksAfter(|w|);
      CorrectedIffSyndromeInData(w[..N]);
    }
  }

  // ------------------------------------------------------- matrix dimensions

  /** `create_h_matrix` as written: `np.hstack` of the 26×5 parity block and the
      5×5 identity, whose row counts differ. */
  function CheckMatrixShapeAsWritten(): Result<Shape>
  {
    SideBySide(Shape(K, R), Shape(R, R))
  }

  /** The decoder as written: building H raises before any chunk is read. */
  function NewDecoderAsWritten(w: seq<bool>): Result<Decoded>
  {
    match CheckMatrixShapeAsWritten()
    case Err(e) => Err(e)
    case Ok(_) => Decoding(w)
  }

  /** As written, constructing `HammingCodeDecode` fails for every received word. */
  lemma DecoderFailsAsWritten(w: seq<bool>)
    ensures CheckMatrixShapeAsWritten() == Err(ShapeMismatch)
    ensures NewDecoderAsWritten(w) == Err(ShapeMismatch)
  {
  }

  /** Stacking the parity block on the identity gives the 31×5 matrix whose
      transpose is the 5×31 check matrix that `calculate_syndrome` multiplies a
      31-bit chunk by; that is the matrix `DecodeMessage` is given. */
  lemma IntendedCheckMatrixShape()
    ensures OneAbove(Shape(K, R), Shape(R, R)) == Ok(Shape(N, R))
    ensures Product(Transpose(Shape(N, R)), Shape(N, 1)) == Ok(Shape(R, 1))
    ensures SideBySide(Shape(K, K), Shape(K, R)) == Ok(Shape(K, N))
  {
  }
}
