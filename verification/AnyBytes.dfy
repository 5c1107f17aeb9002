/**
 What the three readers do with bytes nobody vouches for: cut, extended, changed
 or sealed under another key.

 The reference knows stored chunks only: chunk i lies at its place or is cut off,
 and opens or does not. Byte p of a file is byte p % 64 KiB of what chunk
 p / 64 KiB opens to. Each reader delivers these bytes up to the first chunk it
 needs and cannot have, and reports that chunk's error.
 */
module AnyBytes {
  import opened Wrappers
  import opened Container
  import opened Decrypt
  import opened CipherStream
  import Readers

  // Chunk i holds some of the n bytes.
  predicate Has(n: nat, i: nat) {
    i * PLAINTEXT_CHUNK_LEN < n
  }

  // How many.
  function Want(n: nat, i: nat): nat
    requires Has(n, i)
  {
    Min(n - i * PLAINTEXT_CHUNK_LEN, PLAINTEXT_CHUNK_LEN)
  }

  // Where chunk i begins in the body of a file of n bytes.
  function At(n: nat, i: nat): nat {
    if i == 0 then 0 else At(n, i - 1) + if Has(n, i - 1) then StoredChunkLen(Want(n, i - 1)) else 0
  }

  lemma {:induction false} AtExactly(n: nat, i: nat)
    ensures At(n, i) == StoredLen(Min(i * PLAINTEXT_CHUNK_LEN, n))
    decreases i
  {
    if i > 0 {
      AtExactly(n, i - 1);
      var off := (i - 1) * PLAINTEXT_CHUNK_LEN;
      if off < n {
        StoredLenOfChunks(i - 1, Want(n, i - 1));
      }
    }
  }

  predicate Complete(body: bytes, n: nat, i: nat) {
    At(n, i) <= At(n, i + 1) <= |body|
  }

  function OpenAt(a: Aead, key: Key, body: bytes, n: nat, i: nat): Result<bytes, CryptoError>
    requires Complete(body, n, i)
  {
    DecryptChunk(a, key, body[At(n, i)..At(n, i + 1)])
  }

  predicate Good(a: Aead, key: Key, body: bytes, n: nat, i: nat) {
    Complete(body, n, i) && OpenAt(a, key, body, n, i).Ok?
  }

  // Byte p of the file, if its chunk opens.
  function ByteAt(a: Aead, key: Key, body: bytes, n: nat, p: nat): byte {
    var i := p / PLAINTEXT_CHUNK_LEN;
    if Good(a, key, body, n, i) && p % PLAINTEXT_CHUNK_LEN < |OpenAt(a, key, body, n, i).value| then
      OpenAt(a, key, body, n, i).value[p % PLAINTEXT_CHUNK_LEN]
    else 0
  }

  // The file's bytes [from, to).
  function FileBytes(a: Aead, key: Key, body: bytes, n: nat, from: nat, to: nat): (out: bytes)
    requires from <= to
    ensures |out| == to - from
  {
    seq<byte>(to - from, (j: nat) => ByteAt(a, key, body, n, from + j))
  }

  ghost predicate Shows(a: Aead, key: Key, body: bytes, n: nat, out: bytes, from: nat, to: nat) {
    from <= to && out == FileBytes(a, key, body, n, from, to)
  }

  lemma Places(n: nat, i: nat)
    requires Has(n, i)
    ensures At(n, i) == i * FULL_STORED
    ensures At(n, i + 1) == At(n, i) + StoredChunkLen(Want(n, i))
    ensures Has(n, i + 1) <==> n - i * PLAINTEXT_CHUNK_LEN > PLAINTEXT_CHUNK_LEN
    ensures !Has(n, i + 1) ==> At(n, i + 1) == StoredLen(n)
  {
    AtExactly(n, i);
    AtExactly(n, i + 1);
  }

  lemma PlaceOfEnd(n: nat, i: nat)
    requires !Has(n, i)
    ensures At(n, i) == StoredLen(n)
  {
    AtExactly(n, i);
  }

  // The chunk a reader takes from the bytes behind chunk i's place.
  lemma TakenChunk(body: bytes, n: nat, i: nat)
    requires Has(n, i) && At(n, i) <= |body|
    ensures var rest, take := body[At(n, i)..], StoredChunkLen(Want(n, i));
            (|rest| >= take <==> Complete(body, n, i))
            && (|rest| >= take ==> rest[..take] == body[At(n, i)..At(n, i + 1)] && rest[take..] == body[At(n, i + 1)..])
  {
    Places(n, i);
  }

  lemma OpenedLength(a: Aead, key: Key, body: bytes, n: nat, i: nat)
    requires a.Lawful() && Has(n, i) && Good(a, key, body, n, i)
    ensures |OpenAt(a, key, body, n, i).value| == Want(n, i)
  {
    Places(n, i);
    DecryptedLength(a, key, body[At(n, i)..At(n, i + 1)]);
  }

  // A part of an opened chunk is that part of the file.
  lemma PartShows(a: Aead, key: Key, body: bytes, n: nat, i: nat, from: nat, to: nat)
    requires a.Lawful() && Has(n, i) && Good(a, key, body, n, i)
    requires from <= to <= |OpenAt(a, key, body, n, i).value|
    ensures var off := i * PLAINTEXT_CHUNK_LEN;
            Shows(a, key, body, n, OpenAt(a, key, body, n, i).value[from..to], off + from, off + to)
  {
    var off, p := i * PLAINTEXT_CHUNK_LEN, OpenAt(a, key, body, n, i).value;
    OpenedLength(a, key, body, n, i);
    var out := FileBytes(a, key, body, n, off + from, off + to);
    forall j | 0 <= j < to - from ensures p[from..to][j] == out[j] {
      InChunk(i, from + j);
      assert out[j] == ByteAt(a, key, body, n, off + from + j);
    }
  }

  lemma InChunk(i: nat, r: nat)
    requires r < PLAINTEXT_CHUNK_LEN
    ensures (i * PLAINTEXT_CHUNK_LEN + r) / PLAINTEXT_CHUNK_LEN == i
    ensures (i * PLAINTEXT_CHUNK_LEN + r) % PLAINTEXT_CHUNK_LEN == r
  {
  }

  lemma ShowsJoined(a: Aead, key: Key, body: bytes, n: nat, p: bytes, q: bytes, from: nat, mid: nat, to: nat)
    requires Shows(a, key, body, n, p, from, mid) && Shows(a, key, body, n, q, mid, to)
    ensures Shows(a, key, body, n, p + q, from, to)
  {
    var out := FileBytes(a, key, body, n, from, to);
    forall j | 0 <= j < |p + q| ensures (p + q)[j] == out[j] {
      assert out[j] == ByteAt(a, key, body, n, from + j);
      if j >= |p| {
        assert q[j - |p|] == ByteAt(a, key, body, n, mid + (j - |p|));
      }
    }
  }

  // ---------- The whole file ----------

  // Chunks i to m are there and open; m is the first that is not or does not, or
  // there is no chunk m.
  ghost predicate GoodUpTo(a: Aead, key: Key, body: bytes, n: nat, i: nat, m: nat) {
    i <= m && (forall k :: i <= k < m ==> Has(n, k) && Good(a, key, body, n, k))
    && (Has(n, m) ==> !Good(a, key, body, n, m))
  }

  function ErrorAt(a: Aead, key: Key, body: bytes, n: nat, m: nat): CryptoError
    requires !Good(a, key, body, n, m)
  {
    if Complete(body, n, m) then OpenAt(a, key, body, n, m).error else Truncated
  }

  // The walk from chunk i on.
  function WalkFrom(a: Aead, key: Key, body: bytes, n: nat, i: nat): Walk
    requires At(n, i) <= |body|
  {
    OpenBody(a, key, body[At(n, i)..], n - Min(i * PLAINTEXT_CHUNK_LEN, n))
  }

  // One step of the walk.
  lemma WalkAt(a: Aead, key: Key, body: bytes, n: nat, i: nat)
    requires a.Lawful() && Has(n, i) && At(n, i) <= |body|
    ensures var w := WalkFrom(a, key, body, n, i);
            if Good(a, key, body, n, i) then
              var later := WalkFrom(a, key, body, n, i + 1);
              w == later.(out := OpenAt(a, key, body, n, i).value + later.out)
            else w.out == [] && w.error == Some(ErrorAt(a, key, body, n, i))
  {
    TakenChunk(body, n, i);
    if Good(a, key, body, n, i) {
      OpenedLength(a, key, body, n, i);
    } else if Complete(body, n, i) {
      Places(n, i);
    }
  }

  // A chunk's plaintext in front of what the later chunks show.
  lemma ChunkThenRest(a: Aead, key: Key, body: bytes, n: nat, i: nat, later: bytes, to: nat)
    requires a.Lawful() && Has(n, i) && Good(a, key, body, n, i)
    requires Shows(a, key, body, n, later, Min((i + 1) * PLAINTEXT_CHUNK_LEN, n), to)
    ensures Shows(a, key, body, n, OpenAt(a, key, body, n, i).value + later, i * PLAINTEXT_CHUNK_LEN, to)
  {
    var off, p := i * PLAINTEXT_CHUNK_LEN, OpenAt(a, key, body, n, i).value;
    OpenedLength(a, key, body, n, i);
    PartShows(a, key, body, n, i, 0, |p|);
    assert p[0..|p|] == p;
    ShowsJoined(a, key, body, n, p, later, off, off + |p|, to);
  }

  // What a walk comes to that reached plaintext byte `from` and ends at chunk m.
  ghost predicate WalkIs(a: Aead, key: Key, body: bytes, n: nat, m: nat, from: nat, w: Walk) {
    Shows(a, key, body, n, w.out, from, Min(m * PLAINTEXT_CHUNK_LEN, n))
    && if Has(n, m) then !Good(a, key, body, n, m) && w.error == Some(ErrorAt(a, key, body, n, m))
       else w.error == None && StoredLen(n) <= |body| && w.rest == body[StoredLen(n)..]
  }

  lemma WalkEnds(a: Aead, key: Key, body: bytes, n: nat, m: nat)
    requires a.Lawful() && (Has(n, m) ==> !Good(a, key, body, n, m)) && At(n, m) <= |body|
    ensures WalkIs(a, key, body, n, m, Min(m * PLAINTEXT_CHUNK_LEN, n), WalkFrom(a, key, body, n, m))
  {
    if Has(n, m) {
      WalkAt(a, key, body, n, m);
    } else {
      PlaceOfEnd(n, m);
    }
  }

  lemma ChunkThenWalk(a: Aead, key: Key, body: bytes, n: nat, i: nat, m: nat, later: Walk)
    requires a.Lawful() && Has(n, i) && Good(a, key, body, n, i)
    requires WalkIs(a, key, body, n, m, Min((i + 1) * PLAINTEXT_CHUNK_LEN, n), later)
    ensures WalkIs(a, key, body, n, m, i * PLAINTEXT_CHUNK_LEN,
                   later.(out := OpenAt(a, key, body, n, i).value + later.out))
  {
    ChunkThenRest(a, key, body, n, i, later.out, Min(m * PLAINTEXT_CHUNK_LEN, n));
  }

  lemma {:induction false} WalkExactly(a: Aead, key: Key, body: bytes, n: nat, i: nat, m: nat)
    requires a.Lawful() && GoodUpTo(a, key, body, n, i, m) && At(n, i) <= |body|
    ensures WalkIs(a, key, body, n, m, Min(i * PLAINTEXT_CHUNK_LEN, n), WalkFrom(a, key, body, n, i))
    decreases m - i
  {
    if i < m {
      assert Has(n, i) && Good(a, key, body, n, i);
      WalkAt(a, key, body, n, i);
      WalkExactly(a, key, body, n, i + 1, m);
      ChunkThenWalk(a, key, body, n, i, m, WalkFrom(a, key, body, n, i + 1));
    } else {
      WalkEnds(a, key, body, n, m);
    }
  }

  // The end of the good chunks from i on.
  lemma {:induction false} GoodEnd(a: Aead, key: Key, body: bytes, n: nat, i: nat) returns (m: nat)
    ensures GoodUpTo(a, key, body, n, i, m)
    decreases n - i
  {
    m := i;
    if Has(n, i) && Good(a, key, body, n, i) {
      m := GoodEnd(a, key, body, n, i + 1);
    }
  }

  // The walk over a whole body.
  lemma BodyExactly(a: Aead, key: Key, body: bytes, n: nat) returns (m: nat)
    requires a.Lawful()
    ensures GoodUpTo(a, key, body, n, 0, m) && WalkIs(a, key, body, n, m, 0, OpenBody(a, key, body, n))
  {
    m := GoodEnd(a, key, body, n, 0);
    assert body[At(n, 0)..] == body;
    WalkExactly(a, key, body, n, 0, m);
  }

  /** Whatever the bytes behind the header of a file that is not empty: the bytes
      written are those of the good chunks at its front, and the error is that of
      the first other chunk, or Truncated for anything behind the last one. */
  lemma WholeExactly(a: Aead, key: Key, data: bytes) returns (m: nat)
    requires a.Lawful() && ParseHeader(data).Ok? && ParseHeader(data).value > 0
    ensures var n, body := ParseHeader(data).value, data[HEADER_LEN..];
            var (out, r) := DecryptWhole(a, key, data);
            GoodUpTo(a, key, body, n, 0, m) && Shows(a, key, body, n, out, 0, Min(m * PLAINTEXT_CHUNK_LEN, n))
            && r == if Has(n, m) then Err(ErrorAt(a, key, body, n, m))
                    else if |body| > StoredLen(n) then Err(Truncated) else Ok(n)
  {
    var n, body := ParseHeader(data).value, data[HEADER_LEN..];
    m := BodyExactly(a, key, body, n);
  }

  // A file of no bytes: nothing behind the header, or one chunk that opens to
  // nothing, and nothing else.
  lemma EmptyFileExactly(a: Aead, key: Key, data: bytes)
    requires a.Lawful() && ParseHeader(data) == Ok(0)
    ensures var body, (out, r) := data[HEADER_LEN..], DecryptWhole(a, key, data);
            out == []
            && r == if body == [] then Ok(0)
                    else if |body| < SEAL_OVERHEAD then Err(Truncated)
                    else if a.open(key, body[..NONCE_LEN], body[NONCE_LEN..SEAL_OVERHEAD]).None?
                      then Err(CryptoError.Decrypt)
                    else if |body| > SEAL_OVERHEAD then Err(Truncated) else Ok(0)
  {
    var body := data[HEADER_LEN..];
    if |body| >= SEAL_OVERHEAD {
      var chunk := body[..SEAL_OVERHEAD];
      assert chunk[..NONCE_LEN] == body[..NONCE_LEN] && chunk[NONCE_LEN..] == body[NONCE_LEN..SEAL_OVERHEAD];
      if DecryptChunk(a, key, chunk).Ok? {
        DecryptedLength(a, key, chunk);
      }
    }
  }

  // The bytes of a container's file are those of the plaintext.
  lemma BytesOfContainer(a: Aead, key: Key, nonces: nat -> Nonce, plain: bytes, p: nat)
    requires a.Lawful() && p < |plain| < U64_LIMIT
    ensures ByteAt(a, key, StoredBody(a, key, nonces, plain), |plain|, p) == plain[p]
  {
    var c := ContainerOf(a, key, nonces, plain);
    Readers.ContainerParts(a, key, nonces, plain, []);
    assert c + [] == c && StoredBody(a, key, nonces, plain) + [] == StoredBody(a, key, nonces, plain);
    Readers.RoundTrip(a, key, nonces, plain, []);
    var m := WholeExactly(a, key, c);
    assert plain == FileBytes(a, key, StoredBody(a, key, nonces, plain), |plain|, 0, |plain|);
  }

  // ---------- A slice ----------

  predicate Touches(start: nat, end: nat, i: nat) {
    i * PLAINTEXT_CHUNK_LEN < end && start < (i + 1) * PLAINTEXT_CHUNK_LEN
  }

  // A slice needs every chunk to be there, but only those it touches to open.
  predicate GoodFor(a: Aead, key: Key, body: bytes, n: nat, start: nat, end: nat, i: nat) {
    Complete(body, n, i) && (Touches(start, end, i) ==> Good(a, key, body, n, i))
  }

  ghost predicate GoodForUpTo(a: Aead, key: Key, body: bytes, n: nat, start: nat, end: nat, i: nat, m: nat) {
    i <= m && (forall k :: i <= k < m ==> Has(n, k) && GoodFor(a, key, body, n, start, end, k))
    && (Has(n, m) ==> !GoodFor(a, key, body, n, start, end, m))
  }

  lemma {:induction false} GoodForEnd(a: Aead, key: Key, body: bytes, n: nat, start: nat, end: nat, i: nat)
    returns (m: nat)
    ensures GoodForUpTo(a, key, body, n, start, end, i, m)
    decreases n - i
  {
    m := i;
    if Has(n, i) && GoodFor(a, key, body, n, start, end, i) {
      m := GoodForEnd(a, key, body, n, start, end, i + 1);
    }
  }

  // The part of chunk i that lies in the slice, and where the slice goes on.
  function PartOf(a: Aead, key: Key, body: bytes, n: nat, start: nat, end: nat, i: nat): bytes
    requires start <= end && Good(a, key, body, n, i)
  {
    Readers.Clip(OpenAt(a, key, body, n, i).value, i * PLAINTEXT_CHUNK_LEN, start, end)
  }

  function GoesOn(start: nat, end: nat, i: nat): nat {
    Min(Max(start, i * PLAINTEXT_CHUNK_LEN), end)
  }

  lemma PartBounds(n: nat, start: nat, end: nat, i: nat)
    requires start < end <= n && Has(n, i) && Touches(start, end, i)
    ensures var off := i * PLAINTEXT_CHUNK_LEN;
            var lo, hi := Max(start - off, 0), Min(end - off, Want(n, i));
            0 <= lo < hi <= Want(n, i) && off + lo == GoesOn(start, end, i) && off + hi == GoesOn(start, end, i + 1)
  {
  }

  lemma PartOfShows(a: Aead, key: Key, body: bytes, n: nat, start: nat, end: nat, i: nat)
    requires a.Lawful() && start < end <= n && Has(n, i) && Good(a, key, body, n, i) && Touches(start, end, i)
    ensures var part := PartOf(a, key, body, n, start, end, i);
            part != [] && Shows(a, key, body, n, part, GoesOn(start, end, i), GoesOn(start, end, i + 1))
  {
    var off := i * PLAINTEXT_CHUNK_LEN;
    OpenedLength(a, key, body, n, i);
    PartBounds(n, start, end, i);
    PartShows(a, key, body, n, i, Max(start - off, 0), Min(end - off, Want(n, i)));
  }

  // One turn of the range loop.
  lemma RangeAt(a: Aead, key: Key, body: bytes, n: nat, start: nat, end: nat, i: nat)
    requires a.Lawful() && start < end <= n && Has(n, i) && At(n, i) <= |body|
    ensures var r := OpenRange(a, key, body[At(n, i)..], i * PLAINTEXT_CHUNK_LEN, n, start, end);
            if GoodFor(a, key, body, n, start, end, i) then
              var later :=
                OpenRange(a, key, body[At(n, i + 1)..], Min((i + 1) * PLAINTEXT_CHUNK_LEN, n), n, start, end);
              r == if Touches(start, end, i) then Prepend(PartOf(a, key, body, n, start, end, i), later) else later
            else r == Err(ErrorAt(a, key, body, n, i))
  {
    TakenChunk(body, n, i);
    if Complete(body, n, i) {
      PrependTwice([], [],
        OpenRange(a, key, body[At(n, i + 1)..], Min((i + 1) * PLAINTEXT_CHUNK_LEN, n), n, start, end));
    }
    if Good(a, key, body, n, i) {
      OpenedLength(a, key, body, n, i);
    }
  }

  // What a range comes to that reached plaintext byte `from` and ends at chunk m.
  ghost predicate RangeIs(
    a: Aead, key: Key, body: bytes, n: nat, end: nat, m: nat, from: nat, r: Result<bytes, CryptoError>)
  {
    if Has(n, m) then !Good(a, key, body, n, m) && r == Err(ErrorAt(a, key, body, n, m))
    else if |body| > StoredLen(n) then r == Err(Truncated)
    else r.Ok? && Shows(a, key, body, n, r.value, from, end)
  }

  lemma PartThenRange(
      a: Aead, key: Key, body: bytes, n: nat, start: nat, end: nat, i: nat, m: nat, later: Result<bytes, CryptoError>)
    requires a.Lawful() && start < end <= n && Has(n, i) && Good(a, key, body, n, i) && Touches(start, end, i)
    requires RangeIs(a, key, body, n, end, m, GoesOn(start, end, i + 1), later)
    ensures RangeIs(a, key, body, n, end, m, GoesOn(start, end, i),
                    Prepend(PartOf(a, key, body, n, start, end, i), later))
  {
    if later.Ok? {
      PartOfShows(a, key, body, n, start, end, i);
      ShowsJoined(a, key, body, n, PartOf(a, key, body, n, start, end, i), later.value,
        GoesOn(start, end, i), GoesOn(start, end, i + 1), end);
    }
  }

  lemma Untouched(start: nat, end: nat, i: nat)
    requires start < end && !Touches(start, end, i)
    ensures GoesOn(start, end, i) == GoesOn(start, end, i + 1)
  {
  }

  lemma RangeEnds(a: Aead, key: Key, body: bytes, n: nat, start: nat, end: nat, m: nat)
    requires a.Lawful() && start < end <= n && At(n, m) <= |body|
    requires Has(n, m) ==> !GoodFor(a, key, body, n, start, end, m)
    ensures var r := OpenRange(a, key, body[At(n, m)..], Min(m * PLAINTEXT_CHUNK_LEN, n), n, start, end);
            RangeIs(a, key, body, n, end, m, GoesOn(start, end, m), r)
  {
    if Has(n, m) {
      RangeAt(a, key, body, n, start, end, m);
    } else {
      PlaceOfEnd(n, m);
      assert GoesOn(start, end, m) == end;
    }
  }

  // What the range loop does from chunk i on.
  lemma {:induction false} RangeExactly(a: Aead, key: Key, body: bytes, n: nat, start: nat, end: nat, i: nat, m: nat)
    requires a.Lawful() && start < end <= n && GoodForUpTo(a, key, body, n, start, end, i, m) && At(n, i) <= |body|
    ensures var r := OpenRange(a, key, body[At(n, i)..], Min(i * PLAINTEXT_CHUNK_LEN, n), n, start, end);
            RangeIs(a, key, body, n, end, m, GoesOn(start, end, i), r)
    decreases m - i
  {
    if i < m {
      assert Has(n, i) && GoodFor(a, key, body, n, start, end, i);
      var off' := Min((i + 1) * PLAINTEXT_CHUNK_LEN, n);
      var later := OpenRange(a, key, body[At(n, i + 1)..], off', n, start, end);
      RangeAt(a, key, body, n, start, end, i);
      RangeExactly(a, key, body, n, start, end, i + 1, m);
      if Touches(start, end, i) {
        PartThenRange(a, key, body, n, start, end, i, m, later);
      } else {
        Untouched(start, end, i);
      }
    } else {
      RangeEnds(a, key, body, n, start, end, m);
    }
  }

  /** Whatever the bytes behind the header: a slice that is not empty and in bounds
      succeeds, with the file's bytes, if and only if all chunks and nothing else
      follow and every chunk the slice touches opens. The error is that of the first
      chunk that is cut off, or is touched and does not open; the other chunks may
      hold anything. */
  lemma SliceExactly(a: Aead, key: Key, data: bytes, start: nat, end: nat) returns (m: nat)
    requires a.Lawful() && ParseHeader(data).Ok? && start < end <= ParseHeader(data).value
    ensures var n, body := ParseHeader(data).value, data[HEADER_LEN..];
            var r := DecryptSlice(a, key, data, start, end);
            GoodForUpTo(a, key, body, n, start, end, 0, m)
            && if Has(n, m) then r == Err(ErrorAt(a, key, body, n, m))
               else if |body| > StoredLen(n) then r == Err(Truncated)
               else r.Ok? && Shows(a, key, body, n, r.value, start, end)
  {
    var n, body := ParseHeader(data).value, data[HEADER_LEN..];
    m := GoodForEnd(a, key, body, n, start, end, 0);
    assert body[0..] == body && At(n, 0) == 0;
    RangeExactly(a, key, body, n, start, end, 0, m);
  }

  lemma {:induction false} PlacesAreInside(n: nat, i: nat)
    ensures At(n, i) <= At(n, i + 1) <= StoredLen(n)
  {
    if Has(n, i) {
      Places(n, i);
      if Has(n, i + 1) {
        Places(n, i + 1);
        AtExactly(n, i + 1);
      }
    } else {
      PlaceOfEnd(n, i);
    }
  }

  /** The same for a body of the right length: success means that every touched
      chunk opens, and the error is that of the first touched chunk that does not. */
  lemma SliceOfRightLength(a: Aead, key: Key, data: bytes, start: nat, end: nat) returns (m: nat)
    requires a.Lawful() && ParseHeader(data).Ok? && start < end <= ParseHeader(data).value
    requires |data| == HEADER_LEN + StoredLen(ParseHeader(data).value)
    ensures var n, body := ParseHeader(data).value, data[HEADER_LEN..];
            var r := DecryptSlice(a, key, data, start, end);
            (r.Ok? <==> forall k :: 0 <= k && Touches(start, end, k) ==> Good(a, key, body, n, k))
            && (r.Ok? ==> Shows(a, key, body, n, r.value, start, end))
            && (r.Err? ==>
                  Touches(start, end, m) && Complete(body, n, m)
                  && (forall k :: 0 <= k < m && Touches(start, end, k) ==> Good(a, key, body, n, k))
                  && OpenAt(a, key, body, n, m) == Err(r.error))
  {
    var n, body := ParseHeader(data).value, data[HEADER_LEN..];
    m := SliceExactly(a, key, data, start, end);
    if Has(n, m) {
      PlacesAreInside(n, m);
    }
    forall k | 0 <= k < m && Touches(start, end, k) ensures Good(a, key, body, n, k) {
      assert Has(n, k) && GoodFor(a, key, body, n, start, end, k);
    }
    if !Has(n, m) {
      forall k | 0 <= k && Touches(start, end, k) ensures k < m {
        assert Has(n, k);
      }
    }
  }

  // Every slice that succeeds has the length asked for.
  lemma SliceLength(a: Aead, key: Key, data: bytes, start: nat, end: nat)
    requires a.Lawful() && DecryptSlice(a, key, data, start, end).Ok?
    ensures start <= end && |DecryptSlice(a, key, data, start, end).value| == end - start
  {
    if start < end {
      var m := SliceExactly(a, key, data, start, end);
    }
  }

  // An empty slice in bounds never looks at the body.
  lemma EmptySlice(a: Aead, key: Key, data: bytes, start: nat)
    requires a.Lawful() && ParseHeader(data).Ok? && start <= ParseHeader(data).value
    ensures DecryptSlice(a, key, data, start, start) == Ok([])
  {
  }

  // ---------- The stream ----------

  // Chunks i to m are there and open, and m is below lim; m is the first that is
  // not or does not, or it is lim.
  ghost predicate GoodBelow(a: Aead, key: Key, body: bytes, n: nat, i: nat, lim: nat, m: nat) {
    i <= m <= lim && (forall k :: i <= k < m ==> Good(a, key, body, n, k))
    && (m < lim ==> !Good(a, key, body, n, m))
  }

  lemma {:induction false} GoodBelowEnd(a: Aead, key: Key, body: bytes, n: nat, i: nat, lim: nat) returns (m: nat)
    requires i <= lim
    ensures GoodBelow(a, key, body, n, i, lim, m)
    decreases lim - i
  {
    m := i;
    if i < lim && Good(a, key, body, n, i) {
      m := GoodBelowEnd(a, key, body, n, i + 1, lim);
    }
  }

  // No error, or exactly one, at the end.
  predicate Ends(out: Output, e: Option<StreamError>) {
    if e.None? then Clean(out) else CutShort(out, e.value)
  }

  lemma OneMorePiece(piece: bytes, later: Output, e: Option<StreamError>)
    requires Ends(later, e)
    ensures Ends([Ok(piece)] + later, e) && Payload([Ok(piece)] + later) == piece + Payload(later)
  {
    var out := [Ok(piece)] + later;
    assert out[1..] == later;
    if e.Some? {
      assert out[..|out| - 1] == [Ok(piece)] + later[..|later| - 1];
    }
  }

  function StreamErrorAt(a: Aead, key: Key, body: bytes, n: nat, m: nat, ending: StreamError): StreamError
    requires !Good(a, key, body, n, m)
  {
    if Complete(body, n, m) then DecryptionFailed(OpenAt(a, key, body, n, m).error) else ending
  }

  // One turn of the chunk loop, at a chunk the slice touches.
  lemma StreamChunkAt(a: Aead, key: Key, body: bytes, ending: StreamError, n: nat, start: nat, end: nat, i: nat)
    requires a.Lawful() && start < end <= n && Touches(start, end, i) && At(n, i) <= |body|
    ensures var out := StreamFrom(a, key, body[At(n, i)..], ending, i * PLAINTEXT_CHUNK_LEN, n, start, end);
            if Good(a, key, body, n, i) then
              var off' := Min((i + 1) * PLAINTEXT_CHUNK_LEN, n);
              out == [Ok(PartOf(a, key, body, n, start, end, i))]
                     + StreamFrom(a, key, body[At(n, i + 1)..], ending, off', n, start, end)
            else out == [Err(StreamErrorAt(a, key, body, n, i, ending))]
  {
    TakenChunk(body, n, i);
    if Good(a, key, body, n, i) {
      OpenedLength(a, key, body, n, i);
      PartOfShows(a, key, body, n, start, end, i);
    }
  }

  // A chunk's part of the slice in front of what the later chunks put out.
  lemma PartThenRest(
      a: Aead, key: Key, body: bytes, n: nat, start: nat, end: nat, i: nat, later: Output, e: Option<StreamError>,
      to: nat)
    requires a.Lawful() && start < end <= n && Has(n, i) && Good(a, key, body, n, i) && Touches(start, end, i)
    requires Ends(later, e) && Shows(a, key, body, n, Payload(later), GoesOn(start, end, i + 1), to)
    ensures var out := [Ok(PartOf(a, key, body, n, start, end, i))] + later;
            Ends(out, e) && Shows(a, key, body, n, Payload(out), GoesOn(start, end, i), to)
  {
    var part := PartOf(a, key, body, n, start, end, i);
    PartOfShows(a, key, body, n, start, end, i);
    OneMorePiece(part, later, e);
    ShowsJoined(a, key, body, n, part, Payload(later), GoesOn(start, end, i), GoesOn(start, end, i + 1), to);
  }

  // What a stream comes to that reached plaintext byte `from` and ends at chunk m.
  ghost predicate StreamIs(
    a: Aead, key: Key, body: bytes, ending: StreamError, n: nat, lim: nat, m: nat, from: nat, to: nat, out: Output)
  {
    (m < lim ==> !Good(a, key, body, n, m))
    && Ends(out, if m < lim then Some(StreamErrorAt(a, key, body, n, m, ending)) else None)
    && Shows(a, key, body, n, Payload(out), from, to)
  }

  // What the chunk loop puts out from chunk i on; the slice ends below chunk lim.
  lemma {:induction false} StreamExactly(
      a: Aead, key: Key, body: bytes, ending: StreamError, n: nat, start: nat, end: nat, i: nat, lim: nat, m: nat)
    requires a.Lawful() && start < end <= n && GoodBelow(a, key, body, n, i, lim, m) && At(n, i) <= |body|
    requires lim == (end - 1) / PLAINTEXT_CHUNK_LEN + 1 && start < (i + 1) * PLAINTEXT_CHUNK_LEN
    ensures var out := StreamFrom(a, key, body[At(n, i)..], ending, Min(i * PLAINTEXT_CHUNK_LEN, n), n, start, end);
            StreamIs(a, key, body, ending, n, lim, m, GoesOn(start, end, i), GoesOn(start, end, m), out)
    decreases lim - i
  {
    if i == lim {
      StreamEnds(a, key, body, ending, n, start, end, i);
    } else {
      assert Touches(start, end, i);
      StreamChunkAt(a, key, body, ending, n, start, end, i);
      if i < m {
        assert Good(a, key, body, n, i);
        var off' := Min((i + 1) * PLAINTEXT_CHUNK_LEN, n);
        var later := StreamFrom(a, key, body[At(n, i + 1)..], ending, off', n, start, end);
        StreamExactly(a, key, body, ending, n, start, end, i + 1, lim, m);
        PartThenRest(a, key, body, n, start, end, i, later,
          if m < lim then Some(StreamErrorAt(a, key, body, n, m, ending)) else None, GoesOn(start, end, m));
      } else {
        OnlyError(StreamErrorAt(a, key, body, n, i, ending));
      }
    }
  }

  lemma StreamEnds(a: Aead, key: Key, body: bytes, ending: StreamError, n: nat, start: nat, end: nat, lim: nat)
    requires a.Lawful() && start < end <= n && At(n, lim) <= |body|
    requires lim == (end - 1) / PLAINTEXT_CHUNK_LEN + 1
    ensures var out := StreamFrom(a, key, body[At(n, lim)..], ending, Min(lim * PLAINTEXT_CHUNK_LEN, n), n, start, end);
            StreamIs(a, key, body, ending, n, lim, lim, GoesOn(start, end, lim), GoesOn(start, end, lim), out)
  {
    assert Min(lim * PLAINTEXT_CHUNK_LEN, n) >= end;
  }

  lemma OnlyError(e: StreamError)
    ensures Ends([Err(e)], Some(e)) && Payload([Err(e)]) == []
  {
    var out: Output := [Err(e)];
    assert out[1..] == [] && out[..0] == [];
  }
}
