/** Decrypting a range of a container while its ciphertext arrives from the
    network in arbitrary pieces. */
module CipherStream {
  import opened Wrappers
  import opened Container
  import opened Decrypt

  // What the download yields: pieces of ciphertext, possibly ended by a failure.
  datatype NetItem = Piece(data: bytes) | Failure(message: string)

  datatype StreamError =
    | Network(message: string)
    | CiphertextTruncated
    | DecryptionFailed(cause: CryptoError)

  type Output = seq<Result<bytes, StreamError>>

  // All bytes that arrive before the download ends, and the error that reading
  // past them meets.
  function Delivered(cipher: seq<NetItem>): bytes {
    if cipher == [] || cipher[0].Failure? then [] else cipher[0].data + Delivered(cipher[1..])
  }

  function Ending(cipher: seq<NetItem>): StreamError {
    if cipher == [] then CiphertextTruncated
    else match cipher[0]
         case Failure(message) => Network(message)
         case Piece(_) => Ending(cipher[1..])
  }

  // Pieces arrive one after the other until a failure, which is then the error.
  lemma {:induction false} PiecesArrive(pieces: seq<NetItem>, later: seq<NetItem>)
    requires forall i :: 0 <= i < |pieces| ==> pieces[i].Piece?
    ensures Delivered(pieces + later) == Delivered(pieces) + Delivered(later)
    ensures Ending(pieces + later) == Ending(later)
    decreases |pieces|
  {
    if pieces == [] {
      assert pieces + later == later;
    } else {
      assert (pieces + later)[1..] == pieces[1..] + later;
      PiecesArrive(pieces[1..], later);
      Regroup(pieces[0].data, Delivered(pieces[1..]), Delivered(later));
    }
  }

  lemma ItemsArrive(data: bytes, message: string, later: seq<NetItem>)
    ensures Delivered([Piece(data)]) == data
    ensures Delivered([]) == [] && Ending([]) == CiphertextTruncated
    ensures Delivered([Failure(message)] + later) == [] && Ending([Failure(message)] + later) == Network(message)
  {
    var one: seq<NetItem> := [Piece(data)];
    assert one[1..] == [] && data + [] == data;
  }

  // The output once the download is at the chunk with plaintext offset `off`
  // and `avail` is all that will still arrive.
  function StreamFrom(
      a: Aead, key: Key, avail: bytes, ending: StreamError, off: nat, plainLen: nat, start: nat, end: nat): Output
    requires a.Lawful() && end <= plainLen
    decreases end - off
  {
    if off >= end then []
    else
      var want := Min(plainLen - off, PLAINTEXT_CHUNK_LEN);
      var take := StoredChunkLen(want);
      if |avail| < take then [Err(ending)]
      else
        match DecryptChunk(a, key, avail[..take])
        case Err(e) => [Err(DecryptionFailed(e))]
        case Ok(plain) =>
          DecryptedLength(a, key, avail[..take]);
          var from, to := Max(start - off, 0), Min(end - off, want);
          (if from < to then [Ok(plain[from..to])] else [])
          + StreamFrom(a, key, avail[take..], ending, off + want, plainLen, start, end)
  }

  function StreamAfterSkip(
      a: Aead, key: Key, arriving: bytes, ending: StreamError, skip: nat, off: nat, plainLen: nat, start: nat, end: nat)
    : Output
    requires a.Lawful() && end <= plainLen
  {
    if |arriving| < skip then [Err(ending)]
    else StreamFrom(a, key, arriving[skip..], ending, off, plainLen, start, end)
  }

  lemma NextPiece(cipher: seq<NetItem>, pos: nat)
    requires pos < |cipher|
    ensures var c := cipher[pos];
            if c.Failure? then Delivered(cipher[pos..]) == [] && Ending(cipher[pos..]) == Network(c.message)
            else Delivered(cipher[pos..]) == c.data + Delivered(cipher[pos + 1..])
                 && Ending(cipher[pos..]) == Ending(cipher[pos + 1..])
  {
    assert cipher[pos..][1..] == cipher[pos + 1..];
  }

  // Dropping the first n bytes of the next piece.
  lemma DropFront(dropped: bytes, data: bytes, later: bytes, n: nat)
    requires n <= |data|
    ensures dropped + ([] + (data + later)) == (dropped + data[..n]) + (data[n..] + later)
  {
  }

  /** Drops `cipherSkip` bytes from the front of the download. */
  method SkipCipher(cipher: seq<NetItem>, cipherSkip: nat) returns (r: Result<bytes, StreamError>, pos: nat)
    ensures pos <= |cipher|
    ensures r.Err? ==> r.error == Ending(cipher) && |Delivered(cipher)| < cipherSkip
    ensures r.Ok? ==> |Delivered(cipher)| >= cipherSkip
                      && Delivered(cipher)[cipherSkip..] == r.value + Delivered(cipher[pos..])
                      && Ending(cipher) == Ending(cipher[pos..])
  {
    var buf: bytes := [];
    var skip := cipherSkip;
    pos := 0;
    ghost var all, dropped: bytes := Delivered(cipher), [];
    assert cipher[0..] == cipher;
    while skip > 0
      invariant pos <= |cipher| && skip >= 0
      invariant skip > 0 ==> buf == []
      invariant |dropped| + skip == cipherSkip
      invariant all == dropped + (buf + Delivered(cipher[pos..]))
      invariant Ending(cipher) == Ending(cipher[pos..])
      decreases |cipher| - pos
    {
      if pos == |cipher| {
        return Err(CiphertextTruncated), pos;
      }
      NextPiece(cipher, pos);
      match cipher[pos]
      case Piece(data) =>
        ghost var n := Min(|data|, skip);
        DropFront(dropped, data, Delivered(cipher[pos + 1..]), n);
        if |data| <= skip {
          skip := skip - |data|;
        } else {
          buf := data[skip..];
          skip := 0;
        }
        dropped := dropped + data[..n];
        pos := pos + 1;
      case Failure(message) =>
        return Err(Network(message)), pos;
    }
    r := Ok(buf);
  }

  /** Reads pieces until the buffer holds `take` bytes. */
  method FillBuffer(cipher: seq<NetItem>, at: nat, held: bytes, take: nat)
    returns (r: Result<bytes, StreamError>, pos: nat)
    requires at <= |cipher|
    ensures at <= pos <= |cipher|
    ensures r.Ok? ==> |r.value| >= take && r.value + Delivered(cipher[pos..]) == held + Delivered(cipher[at..])
    ensures r.Ok? ==> Ending(cipher[pos..]) == Ending(cipher[at..])
    ensures r.Err? ==> r.error == Ending(cipher[at..]) && |held + Delivered(cipher[at..])| < take
  {
    var buf := held;
    pos := at;
    while |buf| < take
      invariant at <= pos <= |cipher|
      invariant buf + Delivered(cipher[pos..]) == held + Delivered(cipher[at..])
      invariant Ending(cipher[pos..]) == Ending(cipher[at..])
      decreases |cipher| - pos
    {
      if pos == |cipher| {
        return Err(CiphertextTruncated), pos;
      }
      NextPiece(cipher, pos);
      match cipher[pos]
      case Piece(data) =>
        Regroup(buf, data, Delivered(cipher[pos + 1..]));
        buf := buf + data;
        pos := pos + 1;
      case Failure(message) =>
        return Err(Network(message)), pos;
    }
    r := Ok(buf);
  }

  // One turn of the chunk loop, on the bytes still to arrive.
  lemma StreamStep(
      a: Aead, key: Key, avail: bytes, ending: StreamError, off: nat, plainLen: nat, start: nat, end: nat)
    requires a.Lawful() && off < end <= plainLen
    ensures var want := Min(plainLen - off, PLAINTEXT_CHUNK_LEN);
            var take := StoredChunkLen(want);
            var all := StreamFrom(a, key, avail, ending, off, plainLen, start, end);
            if |avail| < take then all == [Err(ending)]
            else
              var plain := DecryptChunk(a, key, avail[..take]);
              if plain.Err? then all == [Err(DecryptionFailed(plain.error))]
              else
                var from, to := Max(start - off, 0), Min(end - off, want);
                |plain.value| == want
                && all == (if from < to then [Ok(plain.value[from..to])] else [])
                          + StreamFrom(a, key, avail[take..], ending, off + want, plainLen, start, end)
  {
    var want := Min(plainLen - off, PLAINTEXT_CHUNK_LEN);
    if |avail| >= StoredChunkLen(want) && DecryptChunk(a, key, avail[..StoredChunkLen(want)]).Ok? {
      DecryptedLength(a, key, avail[..StoredChunkLen(want)]);
    }
  }

  lemma TakeFront(buf: bytes, later: bytes, take: nat)
    requires take <= |buf|
    ensures (buf + later)[..take] == buf[..take] && (buf + later)[take..] == buf[take..] + later
  {
  }

  // The output still to come with `held` buffered and the download at item `at`.
  function StreamAt(
      a: Aead, key: Key, cipher: seq<NetItem>, at: nat, held: bytes, off: nat, plainLen: nat, start: nat, end: nat)
    : Output
    requires a.Lawful() && end <= plainLen && at <= |cipher|
  {
    StreamFrom(a, key, held + Delivered(cipher[at..]), Ending(cipher[at..]), off, plainLen, start, end)
  }

  // One turn of the chunk loop. It either ends the output with an error, or puts
  // out its part and leaves the rest to come.
  method StreamOne(
      a: Aead, key: Key, cipher: seq<NetItem>, at: nat, held: bytes,
      plainStart: nat, plainEnd: nat, plainLen: nat, plainOff: nat)
    returns (r: Result<Output, StreamError>, pos: nat, buf: bytes, want: nat)
    requires a.Lawful() && plainOff < plainEnd <= plainLen && at <= |cipher|
    ensures at <= pos <= |cipher| && want == Min(plainLen - plainOff, PLAINTEXT_CHUNK_LEN)
    ensures StreamAt(a, key, cipher, at, held, plainOff, plainLen, plainStart, plainEnd)
            == if r.Err? then [Err(r.error)]
               else r.value + StreamAt(a, key, cipher, pos, buf, plainOff + want, plainLen, plainStart, plainEnd)
  {
    StreamStep(a, key, held + Delivered(cipher[at..]), Ending(cipher[at..]), plainOff, plainLen, plainStart, plainEnd);
    want := Min(plainLen - plainOff, PLAINTEXT_CHUNK_LEN);
    var take := StoredChunkLen(want);
    var filled;
    filled, pos := FillBuffer(cipher, at, held, take);
    if filled.Err? {
      return Err(filled.error), pos, [], want;
    }
    TakeFront(filled.value, Delivered(cipher[pos..]), take);
    var stored := filled.value[..take];
    buf := filled.value[take..];
    var plain := DecryptChunk(a, key, stored);
    if plain.Err? {
      return Err(DecryptionFailed(plain.error)), pos, buf, want;
    }
    var from := Max(plainStart - plainOff, 0);
    var to := Min(plainEnd - plainOff, want);
    r := Ok(if from < to then [Ok(plain.value[from..to])] else []);
  }

  /** The chunk loop: `held` is buffered, and the download is at item `at`. */
  method StreamChunks(
      a: Aead, key: Key, cipher: seq<NetItem>, at: nat, held: bytes,
      plainStart: nat, plainEnd: nat, plainLen: nat, firstOff: nat)
    returns (out: Output)
    requires a.Lawful() && plainEnd <= plainLen && at <= |cipher|
    ensures out == StreamAt(a, key, cipher, at, held, firstOff, plainLen, plainStart, plainEnd)
  {
    out := [];
    var buf, pos, plainOff: nat := held, at, firstOff;
    ghost var all := StreamAt(a, key, cipher, at, held, firstOff, plainLen, plainStart, plainEnd);
    while plainOff < plainEnd
      invariant at <= pos <= |cipher|
      invariant all == out + StreamAt(a, key, cipher, pos, buf, plainOff, plainLen, plainStart, plainEnd)
    {
      var r, next, left, want := StreamOne(a, key, cipher, pos, buf, plainStart, plainEnd, plainLen, plainOff);
      if r.Err? {
        return out + [Err(r.error)];
      }
      ghost var todo := StreamAt(a, key, cipher, next, left, plainOff + want, plainLen, plainStart, plainEnd);
      Regroup(out, r.value, todo);
      out, pos, buf, plainOff := out + r.value, next, left, plainOff + want;
    }
    assert out + [] == out;
  }

  /** The streamed plaintext. It depends on the download only through the bytes
      that arrive and how it ends, not on how the bytes are cut into pieces. */
  method DecryptCipherStream(
      a: Aead, key: Key, cipher: seq<NetItem>, plainStart: nat, plainEnd: nat, plainLen: nat, firstIdx: nat,
      cipherSkip: nat)
    returns (out: Output)
    requires a.Lawful() && plainEnd <= plainLen
    ensures out == StreamAfterSkip(a, key, Delivered(cipher), Ending(cipher), cipherSkip,
                                   firstIdx * PLAINTEXT_CHUNK_LEN, plainLen, plainStart, plainEnd)
  {
    var skipped, pos := SkipCipher(cipher, cipherSkip);
    if skipped.Err? {
      return [Err(skipped.error)];
    }
    out := StreamChunks(a, key, cipher, pos, skipped.value, plainStart, plainEnd, plainLen,
      firstIdx * PLAINTEXT_CHUNK_LEN);
  }

  // ---------- What reaches the client ----------

  predicate Clean(out: Output) {
    forall i :: 0 <= i < |out| ==> out[i].Ok?
  }

  function Payload(out: Output): bytes {
    if out == [] then [] else (if out[0].Ok? then out[0].value else []) + Payload(out[1..])
  }

  // Clean up to the last item, which is `e`.
  predicate CutShort(out: Output, e: StreamError) {
    |out| > 0 && Clean(out[..|out| - 1]) && out[|out| - 1] == Err(e)
  }

  // The whole slice and no error.
  predicate Delivers(out: Output, slice: bytes) {
    Clean(out) && Payload(out) == slice
  }

  // A proper part of the slice from its start, then exactly one error.
  predicate DeliversPart(out: Output, slice: bytes, e: StreamError) {
    CutShort(out, e) && Payload(out) < slice
  }

  lemma OneMore(piece: bytes, later: Output, rest: bytes, e: StreamError)
    ensures Delivers(later, rest) ==> Delivers([Ok(piece)] + later, piece + rest)
    ensures DeliversPart(later, rest, e) ==> DeliversPart([Ok(piece)] + later, piece + rest, e)
  {
    var out := [Ok(piece)] + later;
    assert out[1..] == later;
    if CutShort(later, e) {
      assert out[..|out| - 1] == [Ok(piece)] + later[..|later| - 1];
    }
  }

  lemma ErrorOnly(slice: bytes, e: StreamError)
    requires slice != []
    ensures DeliversPart([Err(e)], slice, e)
  {
    var out: Output := [Err(e)];
    assert out[1..] == [] && out[..0] == [];
  }

  // The stored chunk at `off` in front of the stored rest of the window.
  lemma WindowFront(a: Aead, key: Key, nonces: nat -> Nonce, plain: bytes, i: nat, ceil: nat)
    returns (chunk: bytes, later: bytes)
    requires a.Lawful()
    requires i * PLAINTEXT_CHUNK_LEN < ceil <= |plain|
    requires ceil % PLAINTEXT_CHUNK_LEN == 0 || ceil == |plain|
    ensures var off := i * PLAINTEXT_CHUNK_LEN;
            var want := Min(|plain| - off, PLAINTEXT_CHUNK_LEN);
            off + want <= ceil && (off + want < ceil ==> off + want == (i + 1) * PLAINTEXT_CHUNK_LEN)
            && StoredFrom(a, key, nonces, i, plain[off..ceil]) == chunk + later
            && later == StoredFrom(a, key, nonces, i + 1, plain[off + want..ceil])
            && |chunk| == StoredChunkLen(want) && DecryptChunk(a, key, chunk) == Ok(plain[off..off + want])
  {
    var off := i * PLAINTEXT_CHUNK_LEN;
    var want := Min(|plain| - off, PLAINTEXT_CHUNK_LEN);
    assert off + want <= ceil;
    assert Min(ceil - off, PLAINTEXT_CHUNK_LEN) == want;
    var q := plain[off..ceil];
    assert q[..want] == plain[off..off + want] && q[want..] == plain[off + want..ceil];
    chunk, later := StoredChunk(a, key, nonces(i), q[..want]), StoredFrom(a, key, nonces, i + 1, q[want..]);
    StoredChunkDecrypts(a, key, nonces(i), q[..want]);
  }

  lemma WindowAtFront(chunk: bytes, later: bytes, x: bytes)
    ensures (chunk + later + x)[..|chunk|] == chunk && (chunk + later + x)[|chunk|..] == later + x
  {
  }

  lemma SliceOfSlice(s: bytes, lo: nat, hi: nat, from: nat, to: nat)
    requires lo <= from <= to <= hi <= |s|
    ensures s[lo..hi][from - lo..to - lo] == s[from..to]
  {
    var part := s[lo..hi];
    forall k | 0 <= k < to - from ensures part[from - lo..to - lo][k] == s[from..to][k] {
      assert part[from - lo + k] == s[from + k];
    }
  }

  lemma SliceSplits(s: bytes, from: nat, mid: nat, to: nat)
    requires from <= mid <= to <= |s|
    ensures s[from..to] == s[from..mid] + s[mid..to]
  {
  }

  // Output of the chunk at `off`, followed by the output of the chunks after it.
  lemma SlicePieces(plain: bytes, off: nat, want: nat, start: nat, end: nat)
    requires 0 < want && off + want <= |plain| && start < end <= |plain| && start < off + want && off < end
    ensures var from, to := Max(start - off, 0), Min(end - off, want);
            from < to && plain[off..off + want][from..to] == plain[Max(start, off)..Min(end, off + want)]
    ensures plain[Max(start, off)..end]
            == plain[Max(start, off)..Min(end, off + want)]
               + (if off + want < end then plain[off + want..end] else [])
  {
    var a, b := Max(start, off), Min(end, off + want);
    SliceOfSlice(plain, off, off + want, a, b);
    SliceSplits(plain, a, b, end);
  }

  // A stored chunk at the front of what arrives puts its part of the slice at
  // the front of the output.
  lemma FrontStreams(
      a: Aead, key: Key, plain: bytes, chunk: bytes, avail: bytes, off: nat, start: nat, end: nat, ending: StreamError)
    returns (piece: bytes, rest: bytes)
    requires a.Lawful() && start < end <= |plain| && off < end && start < off + PLAINTEXT_CHUNK_LEN
    requires var want := Min(|plain| - off, PLAINTEXT_CHUNK_LEN);
             |chunk| == StoredChunkLen(want) && chunk <= avail
             && DecryptChunk(a, key, chunk) == Ok(plain[off..off + want])
    ensures var want := Min(|plain| - off, PLAINTEXT_CHUNK_LEN);
            StreamFrom(a, key, avail, ending, off, |plain|, start, end)
            == [Ok(piece)] + StreamFrom(a, key, avail[|chunk|..], ending, off + want, |plain|, start, end)
            && piece == plain[Max(start, off)..Min(end, off + want)]
            && plain[Max(start, off)..end] == piece + rest && off + want > start
            && rest == if off + want < end then plain[off + want..end] else []
  {
    var want := Min(|plain| - off, PLAINTEXT_CHUNK_LEN);
    SlicePieces(plain, off, want, start, end);
    piece := plain[Max(start, off)..Min(end, off + want)];
    rest := if off + want < end then plain[off + want..end] else [];
    assert avail[..|chunk|] == chunk;
  }

  // The ciphertext window from chunk i on.
  function WindowFrom(a: Aead, key: Key, nonces: nat -> Nonce, plain: bytes, i: nat, end: nat): bytes
    requires i * PLAINTEXT_CHUNK_LEN < end <= |plain|
  {
    StoredFrom(a, key, nonces, i, plain[i * PLAINTEXT_CHUNK_LEN..ChunkCeil(end, |plain|)])
  }

  lemma WindowSplits(a: Aead, key: Key, nonces: nat -> Nonce, plain: bytes, i: nat, end: nat)
    returns (chunk: bytes, later: bytes)
    requires a.Lawful()
    requires i * PLAINTEXT_CHUNK_LEN < end <= |plain|
    ensures var off := i * PLAINTEXT_CHUNK_LEN;
            var want := Min(|plain| - off, PLAINTEXT_CHUNK_LEN);
            WindowFrom(a, key, nonces, plain, i, end) == chunk + later
            && |chunk| == StoredChunkLen(want) && DecryptChunk(a, key, chunk) == Ok(plain[off..off + want])
            && if off + want < end then off + want == (i + 1) * PLAINTEXT_CHUNK_LEN
                                        && later == WindowFrom(a, key, nonces, plain, i + 1, end)
               else later == []
  {
    chunk, later := WindowFront(a, key, nonces, plain, i, ChunkCeil(end, |plain|));
  }

  // With the whole window there, the rest of the slice comes out.
  lemma {:induction false} WindowStreams(
      a: Aead, key: Key, nonces: nat -> Nonce, plain: bytes, i: nat, start: nat, end: nat, avail: bytes, x: bytes,
      ending: StreamError)
    requires a.Lawful() && start < end <= |plain|
    requires i * PLAINTEXT_CHUNK_LEN < end && start < (i + 1) * PLAINTEXT_CHUNK_LEN
    requires avail == WindowFrom(a, key, nonces, plain, i, end) + x
    ensures var off := i * PLAINTEXT_CHUNK_LEN;
            var out := StreamFrom(a, key, avail, ending, off, |plain|, start, end);
            Delivers(out, plain[Max(start, off)..end])
    decreases end - i * PLAINTEXT_CHUNK_LEN
  {
    var off := i * PLAINTEXT_CHUNK_LEN;
    var chunk, later := WindowSplits(a, key, nonces, plain, i, end);
    WindowAtFront(chunk, later, x);
    if off + PLAINTEXT_CHUNK_LEN < end {
      WindowStreams(a, key, nonces, plain, i + 1, start, end, avail[|chunk|..], x, ending);
    }
    FrontThenRest(a, key, plain, chunk, avail, off, start, end, ending);
  }

  lemma FrontThenRest(
      a: Aead, key: Key, plain: bytes, chunk: bytes, avail: bytes, off: nat, start: nat, end: nat, ending: StreamError)
    requires a.Lawful() && start < end <= |plain| && off < end && start < off + PLAINTEXT_CHUNK_LEN
    requires var want := Min(|plain| - off, PLAINTEXT_CHUNK_LEN);
             |chunk| == StoredChunkLen(want) && chunk <= avail
             && DecryptChunk(a, key, chunk) == Ok(plain[off..off + want])
    requires var off' := off + PLAINTEXT_CHUNK_LEN;
             off' < end ==>
               Delivers(StreamFrom(a, key, avail[|chunk|..], ending, off', |plain|, start, end), plain[off'..end])
    ensures Delivers(StreamFrom(a, key, avail, ending, off, |plain|, start, end), plain[Max(start, off)..end])
  {
    var want := Min(|plain| - off, PLAINTEXT_CHUNK_LEN);
    var piece, rest := FrontStreams(a, key, plain, chunk, avail, off, start, end, ending);
    var more := StreamFrom(a, key, avail[|chunk|..], ending, off + want, |plain|, start, end);
    assert Delivers(more, rest);
    OneMore(piece, more, rest, ending);
  }

  // With the window cut at byte k, a proper part of the slice comes out, then
  // the error the download ended with.
  lemma {:induction false} CutWindowStreams(
      a: Aead, key: Key, nonces: nat -> Nonce, plain: bytes, i: nat, start: nat, end: nat, k: nat, ending: StreamError)
    requires a.Lawful() && start < end <= |plain|
    requires i * PLAINTEXT_CHUNK_LEN < end && start < (i + 1) * PLAINTEXT_CHUNK_LEN
    requires k < |WindowFrom(a, key, nonces, plain, i, end)|
    ensures var off := i * PLAINTEXT_CHUNK_LEN;
            var avail := WindowFrom(a, key, nonces, plain, i, end)[..k];
            var out := StreamFrom(a, key, avail, ending, off, |plain|, start, end);
            DeliversPart(out, plain[Max(start, off)..end], ending)
    decreases end - i * PLAINTEXT_CHUNK_LEN
  {
    var off := i * PLAINTEXT_CHUNK_LEN;
    var want := Min(|plain| - off, PLAINTEXT_CHUNK_LEN);
    var chunk, later := WindowSplits(a, key, nonces, plain, i, end);
    var avail := WindowFrom(a, key, nonces, plain, i, end)[..k];
    if k < |chunk| {
      assert StreamFrom(a, key, avail, ending, off, |plain|, start, end) == [Err(ending)];
      ErrorOnly(plain[Max(start, off)..end], ending);
    } else {
      CutAfterFront(chunk, later, k);
      CutWindowStreams(a, key, nonces, plain, i + 1, start, end, k - |chunk|, ending);
      var later' := WindowFrom(a, key, nonces, plain, i + 1, end)[..k - |chunk|];
      FrontThenPart(a, key, plain, chunk, avail, later', off, start, end, ending);
    }
  }

  lemma FrontThenPart(
      a: Aead, key: Key, plain: bytes, chunk: bytes, avail: bytes, later: bytes, off: nat, start: nat, end: nat,
      ending: StreamError)
    requires a.Lawful() && start < end <= |plain| && start < off + PLAINTEXT_CHUNK_LEN < end
    requires |chunk| == FULL_STORED && chunk <= avail && avail[|chunk|..] == later
    requires DecryptChunk(a, key, chunk) == Ok(plain[off..off + PLAINTEXT_CHUNK_LEN])
    requires var off' := off + PLAINTEXT_CHUNK_LEN;
             DeliversPart(StreamFrom(a, key, later, ending, off', |plain|, start, end), plain[off'..end], ending)
    ensures var out := StreamFrom(a, key, avail, ending, off, |plain|, start, end);
            DeliversPart(out, plain[Max(start, off)..end], ending)
  {
    var piece, rest := FrontStreams(a, key, plain, chunk, avail, off, start, end, ending);
    OneMore(piece, StreamFrom(a, key, later, ending, off + PLAINTEXT_CHUNK_LEN, |plain|, start, end), rest, ending);
  }

  lemma CutAfterFront(chunk: bytes, later: bytes, k: nat)
    requires |chunk| <= k <= |chunk + later|
    ensures chunk <= (chunk + later)[..k] && (chunk + later)[..k][|chunk|..] == later[..k - |chunk|]
  {
  }
}
