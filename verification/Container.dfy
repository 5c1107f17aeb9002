/**
 The JBC1 encrypted container: a 13-byte header followed by the plaintext in
 64 KiB chunks, each stored as nonce, ciphertext and tag.

 AES-GCM itself is a parameter. `Aead` holds its two operations and `Lawful`
 says all that the container code relies on, so every theorem below holds for
 every cipher that meets those laws.
 */
module Container {
  import opened Wrappers

  const PLAINTEXT_CHUNK_LEN := 0x1_0000
  const CHUNK_SHIFT: byte := 16
  const NONCE_LEN := 12
  const TAG_LEN := 16
  const HEADER_LEN := 13
  const MAGIC: bytes := [0x4A, 0x42, 0x43, 0x31]
  const U64_LIMIT := 0x1_0000_0000_0000_0000
  const I64_MAX := 0x7FFF_FFFF_FFFF_FFFF

  // The size field is what follows the magic and the chunk shift.
  const SIZE_LEN: nat := HEADER_LEN - |MAGIC| - 1

  // Bytes a chunk takes beyond its plaintext.
  const SEAL_OVERHEAD := NONCE_LEN + TAG_LEN
  const FULL_STORED := PLAINTEXT_CHUNK_LEN + SEAL_OVERHEAD

  datatype CryptoError =
    | BadFormat
    | Truncated
    | LengthMismatch
    | RangeOutOfBounds
    | Decrypt
    | Io(detail: string)

  type Key = bytes
  type Nonce = n: bytes | |n| == NONCE_LEN witness [0, 0, 0, 0, 0, 0, 0, 0, 0, 0, 0, 0]

  datatype Aead = Aead(
    seal: (Key, Nonce, bytes) -> bytes,
    open: (Key, Nonce, bytes) -> Option<bytes>)
  {
    // A sealed chunk is 16 bytes longer than its plaintext and opens to it.
    ghost predicate Opens() {
      forall k: Key, n: Nonce, p: bytes :: |p| <= PLAINTEXT_CHUNK_LEN ==>
        |seal(k, n, p)| == |p| + TAG_LEN && open(k, n, seal(k, n, p)) == Some(p)
    }

    // Nothing opens except what sealing the result again would give back.
    ghost predicate Tidy() {
      forall k: Key, n: Nonce, c: bytes :: |c| <= PLAINTEXT_CHUNK_LEN + TAG_LEN && open(k, n, c).Some? ==>
        |c| == |open(k, n, c).value| + TAG_LEN && c == seal(k, n, open(k, n, c).value)
    }

    ghost predicate Lawful() {
      Opens() && Tidy()
    }
  }

  // A cipher that keeps the plaintext and appends the nonce and four zeros: it
  // hides nothing, and shows that the laws can be met.
  const PLAIN_AEAD := Aead(
    (k, n, p) => p + n + [0, 0, 0, 0],
    (k, n, c) => if |c| >= TAG_LEN && c[|c| - TAG_LEN..] == n + [0, 0, 0, 0] then Some(c[..|c| - TAG_LEN]) else None)

  lemma LawsCanBeMet()
    ensures PLAIN_AEAD.Lawful()
  {
    forall k: Key, n: Nonce, p: bytes ensures PLAIN_AEAD.open(k, n, PLAIN_AEAD.seal(k, n, p)) == Some(p) {
      var c := PLAIN_AEAD.seal(k, n, p);
      assert c == p + (n + [0, 0, 0, 0]);
      assert c[|c| - TAG_LEN..] == n + [0, 0, 0, 0] && c[..|c| - TAG_LEN] == p;
    }
    forall k: Key, n: Nonce, c: bytes | PLAIN_AEAD.open(k, n, c).Some?
      ensures c == PLAIN_AEAD.seal(k, n, PLAIN_AEAD.open(k, n, c).value) {
      assert c == c[..|c| - TAG_LEN] + c[|c| - TAG_LEN..];
    }
  }

  // ---------- Sizes and windows ----------

  function ChunkCount(plainLen: nat): nat {
    var chunks := (plainLen + PLAINTEXT_CHUNK_LEN - 1) / PLAINTEXT_CHUNK_LEN;
    if chunks == 0 then 1 else chunks
  }

  function CiphertextLen(plainLen: nat): nat {
    HEADER_LEN + plainLen + ChunkCount(plainLen) * SEAL_OVERHEAD
  }

  function StoredChunkLen(plainLen: nat): nat {
    NONCE_LEN + plainLen + TAG_LEN
  }

  function CipherRangeForPlain(start: nat, end: nat, plainLen: nat): Result<(nat, nat), CryptoError> {
    if start > end || end > plainLen then Err(RangeOutOfBounds)
    else if start == end then Ok((HEADER_LEN, 0))
    else
      var first := start / PLAINTEXT_CHUNK_LEN;
      var last := (end - 1) / PLAINTEXT_CHUNK_LEN;
      var cipherStart := HEADER_LEN + first * FULL_STORED;
      var lastPlain := Min(plainLen - last * PLAINTEXT_CHUNK_LEN, PLAINTEXT_CHUNK_LEN);
      var cipherLen := (last - first) * FULL_STORED + (NONCE_LEN + lastPlain + TAG_LEN);
      Ok((cipherStart, cipherLen))
  }

  // ---------- Header ----------

  // The `width` low-order bytes of n, least significant first.
  function LittleEndian(n: nat, width: nat): (b: bytes)
    ensures |b| == width
    decreases width
  {
    if width == 0 then [] else [n % 256] + LittleEndian(n / 256, width - 1)
  }

  function FromLittleEndian(b: bytes): nat {
    if b == [] then 0 else b[0] + 256 * FromLittleEndian(b[1..])
  }

  function Pow256(width: nat): nat {
    if width == 0 then 1 else 256 * Pow256(width - 1)
  }

  function EncodeHeader(plainLen: nat): (h: bytes)
    ensures |h| == HEADER_LEN
  {
    MAGIC + [CHUNK_SHIFT] + LittleEndian(plainLen, SIZE_LEN)
  }

  function ParseHeader(data: bytes): Result<nat, CryptoError> {
    if |data| < HEADER_LEN then Err(Truncated)
    else if data[..4] != MAGIC || data[4] != CHUNK_SHIFT then Err(BadFormat)
    else Ok(FromLittleEndian(data[5..13]))
  }

  lemma {:induction false} LittleEndianRoundTrip(n: nat, width: nat)
    requires n < Pow256(width)
    ensures FromLittleEndian(LittleEndian(n, width)) == n
    decreases width
  {
    if width != 0 {
      LittleEndianRoundTrip(n / 256, width - 1);
      assert LittleEndian(n, width)[1..] == LittleEndian(n / 256, width - 1);
    }
  }

  lemma {:induction false} FromLittleEndianRoundTrip(b: bytes)
    ensures FromLittleEndian(b) < Pow256(|b|)
    ensures LittleEndian(FromLittleEndian(b), |b|) == b
    decreases |b|
  {
    if b != [] {
      FromLittleEndianRoundTrip(b[1..]);
      var rest := FromLittleEndian(b[1..]);
      assert (b[0] + 256 * rest) / 256 == rest && (b[0] + 256 * rest) % 256 == b[0];
      assert b == [b[0]] + b[1..];
    }
  }

  lemma Pow256Of8()
    ensures Pow256(8) == U64_LIMIT
  {
    assert Pow256(4) == 0x1_0000_0000;
  }

  lemma HeaderParts(h: bytes)
    requires |h| == HEADER_LEN
    ensures h == h[..4] + [h[4]] + h[5..13]
  {
  }

  lemma JoinedParts(m: bytes, c: byte, size: bytes)
    requires |m| == 4 && |size| == 8
    ensures (m + [c] + size)[..4] == m && (m + [c] + size)[4] == c && (m + [c] + size)[5..13] == size
  {
  }

  lemma FrontParts(data: bytes)
    requires |data| >= HEADER_LEN
    ensures data[..HEADER_LEN][..4] == data[..4] && data[..HEADER_LEN][4] == data[4]
            && data[..HEADER_LEN][5..13] == data[5..13]
  {
  }

  lemma EncodedHeaderParses(data: bytes, n: nat)
    requires n < U64_LIMIT
    requires |data| >= HEADER_LEN && data[..HEADER_LEN] == EncodeHeader(n)
    ensures ParseHeader(data) == Ok(n)
  {
    Pow256Of8();
    LittleEndianRoundTrip(n, SIZE_LEN);
    FrontParts(data);
    JoinedParts(MAGIC, CHUNK_SHIFT, LittleEndian(n, SIZE_LEN));
  }

  lemma ParsedHeaderIsEncoded(data: bytes)
    requires ParseHeader(data).Ok?
    ensures ParseHeader(data).value < U64_LIMIT
    ensures data[..HEADER_LEN] == EncodeHeader(ParseHeader(data).value)
  {
    Pow256Of8();
    var size := data[5..13];
    FromLittleEndianRoundTrip(size);
    var h := data[..HEADER_LEN];
    HeaderParts(h);
    assert h[..4] == data[..4] && h[5..13] == size;
  }

  // A header parses to n exactly when it is the encoding of n, for every u64.
  lemma HeaderRoundTrip(data: bytes, n: nat)
    requires n < U64_LIMIT
    ensures ParseHeader(data) == Ok(n) <==> |data| >= HEADER_LEN && data[..HEADER_LEN] == EncodeHeader(n)
  {
    if ParseHeader(data) == Ok(n) {
      ParsedHeaderIsEncoded(data);
    }
    if |data| >= HEADER_LEN && data[..HEADER_LEN] == EncodeHeader(n) {
      EncodedHeaderParses(data, n);
    }
  }

  // The header byte by byte: the magic, the chunk size as a power of two, and the
  // size, least significant byte first.
  lemma HeaderBytes(n: nat, k: nat)
    requires k < SIZE_LEN
    ensures EncodeHeader(n)[..4] == [0x4A, 0x42, 0x43, 0x31]
    ensures EncodeHeader(n)[4] == CHUNK_SHIFT && PLAINTEXT_CHUNK_LEN == Pow2Of(CHUNK_SHIFT)
    ensures EncodeHeader(n)[5 + k] == ByteOf(n, k)
  {
    LittleEndianByte(n, SIZE_LEN, k);
    assert Pow2Of(8) == 256;
    HeaderParts(EncodeHeader(n));
  }

  function Pow2Of(n: nat): nat {
    if n == 0 then 1 else 2 * Pow2Of(n - 1)
  }

  // Byte k of n, counted from the least significant.
  function ByteOf(n: nat, k: nat): byte
    decreases k
  {
    if k == 0 then n % 256 else ByteOf(n / 256, k - 1)
  }

  lemma {:induction false} LittleEndianByte(n: nat, width: nat, k: nat)
    requires k < width
    ensures LittleEndian(n, width)[k] == ByteOf(n, k)
    decreases width
  {
    if k > 0 {
      LittleEndianByte(n / 256, width - 1, k - 1);
    }
  }

  // A header that is too short is Truncated, a wrong one BadFormat.
  lemma HeaderErrors(data: bytes)
    ensures ParseHeader(data) == Err(Truncated) <==> |data| < HEADER_LEN
    ensures ParseHeader(data) == Err(BadFormat)
            <==> |data| >= HEADER_LEN && forall n :: 0 <= n < U64_LIMIT ==> data[..HEADER_LEN] != EncodeHeader(n)
    ensures ParseHeader(data).Err? ==> ParseHeader(data).error == Truncated || ParseHeader(data).error == BadFormat
  {
    if ParseHeader(data).Ok? {
      ParsedHeaderIsEncoded(data);
    }
    forall n | 0 <= n < U64_LIMIT && ParseHeader(data) == Err(BadFormat) && data[..HEADER_LEN] == EncodeHeader(n)
      ensures false {
      EncodedHeaderParses(data, n);
    }
  }

  // ---------- Contents ----------

  function StoredChunk(a: Aead, key: Key, nonce: Nonce, plain: bytes): bytes {
    nonce + a.seal(key, nonce, plain)
  }

  // The stored form of `plain`, the first of its chunks under nonces(i).
  function StoredFrom(a: Aead, key: Key, nonces: nat -> Nonce, i: nat, plain: bytes): bytes
    decreases |plain|
  {
    if plain == [] then []
    else
      var n := Min(|plain|, PLAINTEXT_CHUNK_LEN);
      StoredChunk(a, key, nonces(i), plain[..n]) + StoredFrom(a, key, nonces, i + 1, plain[n..])
  }

  // An empty file still stores one empty chunk.
  function StoredBody(a: Aead, key: Key, nonces: nat -> Nonce, plain: bytes): bytes {
    if plain == [] then StoredChunk(a, key, nonces(0), []) else StoredFrom(a, key, nonces, 0, plain)
  }

  function ContainerOf(a: Aead, key: Key, nonces: nat -> Nonce, plain: bytes): bytes {
    EncodeHeader(|plain|) + StoredBody(a, key, nonces, plain)
  }

  // Bytes that `n` bytes of plaintext take when stored from a chunk boundary on.
  function StoredLen(n: nat): nat {
    n + (n + PLAINTEXT_CHUNK_LEN - 1) / PLAINTEXT_CHUNK_LEN * SEAL_OVERHEAD
  }

  lemma {:induction false} StoredFromLength(a: Aead, key: Key, nonces: nat -> Nonce, i: nat, plain: bytes)
    requires a.Lawful()
    ensures |StoredFrom(a, key, nonces, i, plain)| == StoredLen(|plain|)
    decreases |plain|
  {
    if plain != [] {
      var n := Min(|plain|, PLAINTEXT_CHUNK_LEN);
      StoredFromLength(a, key, nonces, i + 1, plain[n..]);
      assert |StoredChunk(a, key, nonces(i), plain[..n])| == StoredChunkLen(n);
    }
  }

  // The length the gateway announces is the length of the container.
  lemma ContainerLength(a: Aead, key: Key, nonces: nat -> Nonce, plain: bytes)
    requires a.Lawful()
    ensures |ContainerOf(a, key, nonces, plain)| == CiphertextLen(|plain|)
  {
    StoredFromLength(a, key, nonces, 0, plain);
    assert |StoredChunk(a, key, nonces(0), [])| == StoredChunkLen(0);
  }

  // Whole chunks in front do not change how the rest is stored.
  lemma {:induction false} StoredFromAppend(a: Aead, key: Key, nonces: nat -> Nonce, i: nat, p: bytes, q: bytes)
    requires |p| % PLAINTEXT_CHUNK_LEN == 0
    ensures StoredFrom(a, key, nonces, i, p + q)
         == StoredFrom(a, key, nonces, i, p) + StoredFrom(a, key, nonces, i + |p| / PLAINTEXT_CHUNK_LEN, q)
    decreases |p|
  {
    if p == [] {
      assert p + q == q;
    } else {
      var n := PLAINTEXT_CHUNK_LEN;
      assert (p + q)[..n] == p[..n] && (p + q)[n..] == p[n..] + q;
      assert |p| / n == 1 + |p[n..]| / n;
      StoredFromAppend(a, key, nonces, i + 1, p[n..], q);
    }
  }

  // End of the last chunk a range [.., end) touches.
  function ChunkCeil(end: nat, plainLen: nat): nat
    requires 0 < end
  {
    Min(((end - 1) / PLAINTEXT_CHUNK_LEN + 1) * PLAINTEXT_CHUNK_LEN, plainLen)
  }

  lemma StoredLenOfChunks(whole: nat, last: nat)
    requires 0 < last <= PLAINTEXT_CHUNK_LEN
    ensures StoredLen(whole * PLAINTEXT_CHUNK_LEN + last) == whole * FULL_STORED + StoredChunkLen(last)
  {
  }

  // Where the window of a range starts and how long it is, in chunks.
  lemma WindowGeometry(start: nat, end: nat, plainLen: nat)
    requires start < end <= plainLen
    ensures var first := start / PLAINTEXT_CHUNK_LEN;
            var ceil := ChunkCeil(end, plainLen);
            first * PLAINTEXT_CHUNK_LEN <= start && end <= ceil <= plainLen
            && (ceil % PLAINTEXT_CHUNK_LEN == 0 || ceil == plainLen)
            && CipherRangeForPlain(start, end, plainLen)
               == Ok((HEADER_LEN + first * FULL_STORED, StoredLen(ceil - first * PLAINTEXT_CHUNK_LEN)))
  {
    var first, last := start / PLAINTEXT_CHUNK_LEN, (end - 1) / PLAINTEXT_CHUNK_LEN;
    assert first <= last;
    StoredLenOfChunks(last - first, Min(plainLen - last * PLAINTEXT_CHUNK_LEN, PLAINTEXT_CHUNK_LEN));
  }

  lemma SplitStored(a: Aead, key: Key, nonces: nat -> Nonce, plain: bytes, first: nat, to: nat) returns (tail: bytes)
    requires first * PLAINTEXT_CHUNK_LEN <= to <= |plain|
    requires to % PLAINTEXT_CHUNK_LEN == 0 || to == |plain|
    ensures var from := first * PLAINTEXT_CHUNK_LEN;
            StoredFrom(a, key, nonces, 0, plain)
            == StoredFrom(a, key, nonces, 0, plain[..from])
               + (StoredFrom(a, key, nonces, first, plain[from..to]) + tail)
  {
    var from := first * PLAINTEXT_CHUNK_LEN;
    var before, mid, after := plain[..from], plain[from..to], plain[to..];
    assert plain == before + (mid + after);
    StoredFromAppend(a, key, nonces, 0, before, mid + after);
    tail := StoredTail(a, key, nonces, first, mid, after);
  }

  lemma SliceMiddle(whole: bytes, h: bytes, x: bytes, y: bytes, z: bytes)
    requires whole == h + (x + (y + z))
    ensures |h| + |x| + |y| <= |whole| && whole[|h| + |x|..|h| + |x| + |y|] == y
  {
  }

  // Whole chunks take a whole number of full stored chunks.
  lemma WholeChunksLength(a: Aead, key: Key, nonces: nat -> Nonce, n: nat, plain: bytes)
    requires a.Lawful() && |plain| == n * PLAINTEXT_CHUNK_LEN
    ensures |StoredFrom(a, key, nonces, 0, plain)| == n * FULL_STORED
  {
    StoredFromLength(a, key, nonces, 0, plain);
  }

  // A container from the header to a window, the window, and what follows.
  lemma WindowParts(a: Aead, key: Key, nonces: nat -> Nonce, plain: bytes, first: nat, to: nat)
    requires a.Lawful()
    requires first * PLAINTEXT_CHUNK_LEN <= to <= |plain| && 0 < to
    requires to % PLAINTEXT_CHUNK_LEN == 0 || to == |plain|
    ensures var c := ContainerOf(a, key, nonces, plain);
            var from := first * PLAINTEXT_CHUNK_LEN;
            var cs, cl := HEADER_LEN + first * FULL_STORED, StoredLen(to - from);
            cs + cl <= |c| && c[cs..cs + cl] == StoredFrom(a, key, nonces, first, plain[from..to])
  {
    var from := first * PLAINTEXT_CHUNK_LEN;
    var after := SplitStored(a, key, nonces, plain, first, to);
    var before := StoredFrom(a, key, nonces, 0, plain[..from]);
    var window := StoredFrom(a, key, nonces, first, plain[from..to]);
    WholeChunksLength(a, key, nonces, first, plain[..from]);
    StoredFromLength(a, key, nonces, first, plain[from..to]);
    SliceMiddle(ContainerOf(a, key, nonces, plain), EncodeHeader(|plain|), before, window, after);
  }

  // The stored chunks a range touches.
  function ChunkWindow(a: Aead, key: Key, nonces: nat -> Nonce, plain: bytes, start: nat, end: nat): bytes
    requires start < end <= |plain|
  {
    var first := start / PLAINTEXT_CHUNK_LEN;
    StoredFrom(a, key, nonces, first, plain[first * PLAINTEXT_CHUNK_LEN..ChunkCeil(end, |plain|)])
  }

  // The ciphertext window of a range holds exactly the stored chunks the range
  // touches, and lies inside the container, behind the header.
  lemma CipherRangeIsChunkWindow(a: Aead, key: Key, nonces: nat -> Nonce, plain: bytes, start: nat, end: nat)
    requires a.Lawful()
    requires start < end <= |plain|
    ensures CipherRangeForPlain(start, end, |plain|).Ok?
    ensures var (cs, cl) := CipherRangeForPlain(start, end, |plain|).value;
            var c := ContainerOf(a, key, nonces, plain);
            HEADER_LEN <= cs && cs + cl <= |c| && c[cs..cs + cl] == ChunkWindow(a, key, nonces, plain, start, end)
  {
    WindowGeometry(start, end, |plain|);
    WindowParts(a, key, nonces, plain, start / PLAINTEXT_CHUNK_LEN, ChunkCeil(end, |plain|));
  }

  // mid ends either at a chunk boundary or at the end of the file.
  lemma StoredTail(a: Aead, key: Key, nonces: nat -> Nonce, i: nat, mid: bytes, after: bytes) returns (tail: bytes)
    requires |mid| % PLAINTEXT_CHUNK_LEN == 0 || after == []
    ensures StoredFrom(a, key, nonces, i, mid + after) == StoredFrom(a, key, nonces, i, mid) + tail
  {
    if after == [] {
      assert mid + after == mid;
      tail := [];
    } else {
      StoredFromAppend(a, key, nonces, i, mid, after);
      tail := StoredFrom(a, key, nonces, i + |mid| / PLAINTEXT_CHUNK_LEN, after);
    }
  }

  // The full range is everything after the header.
  lemma FullRangeReachesEnd(plainLen: nat)
    requires 0 < plainLen
    ensures CipherRangeForPlain(0, plainLen, plainLen) == Ok((HEADER_LEN, CiphertextLen(plainLen) - HEADER_LEN))
  {
    var last := (plainLen - 1) / PLAINTEXT_CHUNK_LEN;
    assert ChunkCount(plainLen) == last + 1;
  }

  // Windows of two ranges that meet at a chunk boundary meet, too.
  lemma WindowsTile(start: nat, mid: nat, end: nat, plainLen: nat)
    requires start < mid < end <= plainLen && mid % PLAINTEXT_CHUNK_LEN == 0
    ensures CipherRangeForPlain(start, mid, plainLen).Ok? && CipherRangeForPlain(mid, end, plainLen).Ok?
    ensures var (cs, cl) := CipherRangeForPlain(start, mid, plainLen).value;
            var (cs', cl') := CipherRangeForPlain(mid, end, plainLen).value;
            cs + cl == cs' && CipherRangeForPlain(start, end, plainLen) == Ok((cs, cl + cl'))
  {
    assert (mid - 1) / PLAINTEXT_CHUNK_LEN == mid / PLAINTEXT_CHUNK_LEN - 1;
  }

  // Largest plaintext whose container length still fits u64.
  const MAX_CONTAINER_PLAIN := 18438866140177981402

  // The announced length fits u64 exactly up to that size, which covers every
  // size the i64 column can hold.
  lemma SizesFitU64(plainLen: nat)
    ensures CiphertextLen(plainLen) < U64_LIMIT <==> plainLen <= MAX_CONTAINER_PLAIN
    ensures plainLen <= I64_MAX ==> CiphertextLen(plainLen) < U64_LIMIT
  {
  }

  // No step of the window arithmetic overflows u64 for a container that fits.
  lemma WindowStepsFitU64(start: nat, end: nat, plainLen: nat)
    requires start < end <= plainLen <= MAX_CONTAINER_PLAIN
    ensures var first, last := start / PLAINTEXT_CHUNK_LEN, (end - 1) / PLAINTEXT_CHUNK_LEN;
            var (cipherStart, cipherLen) := CipherRangeForPlain(start, end, plainLen).value;
            first <= last && (last + 1) * PLAINTEXT_CHUNK_LEN < U64_LIMIT
            && first * FULL_STORED <= cipherStart && (last - first) * FULL_STORED <= cipherLen
            && cipherStart + cipherLen <= CiphertextLen(plainLen) < U64_LIMIT
  {
    SizesFitU64(plainLen);
    WindowGeometry(start, end, plainLen);
    assert ChunkCount(plainLen) == (plainLen - 1) / PLAINTEXT_CHUNK_LEN + 1;
  }
}
