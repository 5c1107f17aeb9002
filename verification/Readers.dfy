/** What the two in-memory readers promise about containers, and about data that
    is not one. */
module Readers {
  import opened Wrappers
  import opened Container
  import opened Decrypt

  // ---------- Round trip ----------

  lemma OpenOneOfStored(a: Aead, key: Key, nonce: Nonce, p: bytes, x: bytes)
    requires a.Lawful() && |p| <= PLAINTEXT_CHUNK_LEN
    ensures OpenOne(a, key, StoredChunk(a, key, nonce, p) + x, |p|) == Walk(p, x, None)
  {
    StoredChunkDecrypts(a, key, nonce, p);
    var chunk := StoredChunk(a, key, nonce, p);
    assert (chunk + x)[..|chunk|] == chunk && (chunk + x)[|chunk|..] == x;
  }

  lemma {:induction false} OpenBodyOfStored(a: Aead, key: Key, nonces: nat -> Nonce, i: nat, plain: bytes, x: bytes)
    requires a.Lawful()
    ensures OpenBody(a, key, StoredFrom(a, key, nonces, i, plain) + x, |plain|) == Walk(plain, x, None)
    decreases |plain|
  {
    if plain == [] {
      assert StoredFrom(a, key, nonces, i, plain) + x == x;
    } else {
      var n := Min(|plain|, PLAINTEXT_CHUNK_LEN);
      var chunk, later := StoredChunk(a, key, nonces(i), plain[..n]), StoredFrom(a, key, nonces, i + 1, plain[n..]);
      Regroup(chunk, later, x);
      OpenOneOfStored(a, key, nonces(i), plain[..n], later + x);
      OpenBodyOfStored(a, key, nonces, i + 1, plain[n..], x);
      assert plain[..n] + plain[n..] == plain;
    }
  }

  lemma ContainerParts(a: Aead, key: Key, nonces: nat -> Nonce, plain: bytes, x: bytes)
    requires |plain| < U64_LIMIT
    ensures var data := ContainerOf(a, key, nonces, plain) + x;
            ParseHeader(data) == Ok(|plain|) && data[HEADER_LEN..] == StoredBody(a, key, nonces, plain) + x
  {
    var data := ContainerOf(a, key, nonces, plain) + x;
    assert data[..HEADER_LEN] == EncodeHeader(|plain|);
    EncodedHeaderParses(data, |plain|);
  }

  // Decrypting what was encrypted gives the plaintext back, whatever follows it;
  // anything that does follow it is an error.
  lemma RoundTrip(a: Aead, key: Key, nonces: nat -> Nonce, plain: bytes, extra: bytes)
    requires a.Lawful() && |plain| < U64_LIMIT
    ensures DecryptWhole(a, key, ContainerOf(a, key, nonces, plain)) == (plain, Ok(|plain|))
    ensures DecryptWhole(a, key, ContainerOf(a, key, nonces, plain) + extra)
            == (plain, if extra == [] then Ok(|plain|) else Err(Truncated))
  {
    forall x: bytes ensures DecryptWhole(a, key, ContainerOf(a, key, nonces, plain) + x)
                            == (plain, if x == [] then Ok(|plain|) else Err(Truncated)) {
      ContainerParts(a, key, nonces, plain, x);
      if plain == [] {
        OpenOneOfStored(a, key, nonces(0), [], x);
      } else {
        OpenBodyOfStored(a, key, nonces, 0, plain, x);
      }
    }
    assert ContainerOf(a, key, nonces, plain) + [] == ContainerOf(a, key, nonces, plain);
  }

  // ---------- Only containers decrypt ----------

  const ZERO_NONCE: Nonce := [0, 0, 0, 0, 0, 0, 0, 0, 0, 0, 0, 0]

  // The nonces found in a body, chunk by chunk.
  function NoncesOf(body: bytes): nat -> Nonce {
    (i: nat) => if |body| >= i * FULL_STORED + NONCE_LEN then body[i * FULL_STORED..i * FULL_STORED + NONCE_LEN]
                else ZERO_NONCE
  }

  // The first chunk of a walk that succeeds.
  lemma OpenedChunk(a: Aead, key: Key, all: bytes, i: nat, want: nat) returns (p: bytes)
    requires a.Lawful() && |all| >= i * FULL_STORED && want <= PLAINTEXT_CHUNK_LEN
    requires OpenOne(a, key, all[i * FULL_STORED..], want).error == None
    ensures var one := OpenOne(a, key, all[i * FULL_STORED..], want);
            |p| == want && one.out == p && one.rest == all[i * FULL_STORED + StoredChunkLen(want)..]
            && all[i * FULL_STORED..] == StoredChunk(a, key, NoncesOf(all)(i), p) + one.rest
  {
    var body, take := all[i * FULL_STORED..], StoredChunkLen(want);
    var chunk := body[..take];
    p := DecryptChunk(a, key, chunk).value;
    DecryptChunkInverse(a, key, chunk, p);
    assert chunk[..NONCE_LEN] == all[i * FULL_STORED..i * FULL_STORED + NONCE_LEN] == NoncesOf(all)(i);
    assert body == chunk + body[take..];
  }

  // The first step of a walk that succeeds.
  lemma WalkStep(a: Aead, key: Key, body: bytes, remaining: nat, w: Walk) returns (one: Walk, later: Walk)
    requires 0 < remaining && w == OpenBody(a, key, body, remaining) && w.error == None
    ensures var want := Min(remaining, PLAINTEXT_CHUNK_LEN);
            one == OpenOne(a, key, body, want) && one.error == None
            && later == OpenBody(a, key, one.rest, remaining - want) && later.error == None
            && w == Walk(one.out + later.out, later.rest, None)
            && (remaining == want ==> later == Walk([], one.rest, None))
  {
    var want := Min(remaining, PLAINTEXT_CHUNK_LEN);
    one := OpenOne(a, key, body, want);
    later := OpenBody(a, key, one.rest, remaining - want);
  }

  lemma {:induction false} OpenBodyIsStored(
      a: Aead, key: Key, all: bytes, nonces: nat -> Nonce, i: nat, body: bytes, remaining: nat, w: Walk)
    requires a.Lawful() && |all| >= i * FULL_STORED && 0 < remaining
    requires nonces == NoncesOf(all) && body == all[i * FULL_STORED..]
    requires w == OpenBody(a, key, body, remaining) && w.error == None
    ensures |w.out| == remaining
    ensures body == StoredFrom(a, key, nonces, i, w.out) + w.rest
    decreases remaining
  {
    var want := Min(remaining, PLAINTEXT_CHUNK_LEN);
    var one, later := WalkStep(a, key, body, remaining, w);
    var p := OpenedChunk(a, key, all, i, want);
    if remaining > want {
      assert one.rest == all[(i + 1) * FULL_STORED..];
      OpenBodyIsStored(a, key, all, nonces, i + 1, one.rest, remaining - want, later);
      OpenedFront(a, key, nonces, i, p, body, one.rest, later);
    } else {
      LastChunk(a, key, nonces, i, p);
    }
  }

  lemma LastChunk(a: Aead, key: Key, nonces: nat -> Nonce, i: nat, p: bytes)
    requires 0 < |p| <= PLAINTEXT_CHUNK_LEN
    ensures StoredFrom(a, key, nonces, i, p + []) == StoredChunk(a, key, nonces(i), p)
  {
    assert p + [] == p && p[..|p|] == p;
    assert StoredFrom(a, key, nonces, i + 1, p[|p|..]) == [];
  }

  lemma OpenedFront(
      a: Aead, key: Key, nonces: nat -> Nonce, i: nat, p: bytes, body: bytes, rest: bytes, later: Walk)
    requires |p| == PLAINTEXT_CHUNK_LEN
    requires body == StoredChunk(a, key, nonces(i), p) + rest
    requires rest == StoredFrom(a, key, nonces, i + 1, later.out) + later.rest
    ensures body == StoredFrom(a, key, nonces, i, p + later.out) + later.rest
  {
    assert (p + later.out)[..|p|] == p && (p + later.out)[|p|..] == later.out;
    var chunk, stored := StoredChunk(a, key, nonces(i), p), StoredFrom(a, key, nonces, i + 1, later.out);
    Regroup(chunk, stored, later.rest);
  }

  // A header of length 0 with no body at all is the one thing that decrypts
  // without being a container.
  ghost predicate IsContainer(a: Aead, key: Key, data: bytes, plain: bytes) {
    exists nonces: nat -> Nonce :: data == ContainerOf(a, key, nonces, plain)
  }

  lemma DecryptedIsContainer(a: Aead, key: Key, data: bytes)
    requires a.Lawful() && DecryptWhole(a, key, data).1.Ok?
    ensures var plain := DecryptWhole(a, key, data).0;
            IsContainer(a, key, data, plain) || (plain == [] && data == EncodeHeader(0))
  {
    ParsedHeaderIsEncoded(data);
    var (plain, r) := DecryptWhole(a, key, data);
    var body := data[HEADER_LEN..];
    assert data == EncodeHeader(r.value) + body;
    if r.value > 0 {
      assert body[0 * FULL_STORED..] == body;
      OpenBodyIsStored(a, key, body, NoncesOf(body), 0, body, r.value, OpenBody(a, key, body, r.value));
      var stored := StoredFrom(a, key, NoncesOf(body), 0, plain);
      assert stored + [] == stored;
      assert data == ContainerOf(a, key, NoncesOf(body), plain);
    } else if body != [] {
      EmptyBodyIsStored(a, key, body);
      assert data == ContainerOf(a, key, NoncesOf(body), plain);
    }
  }

  // Decryption succeeds with `plain` exactly on the containers of `plain`.
  lemma DecryptsExactlyContainers(a: Aead, key: Key, data: bytes, plain: bytes)
    requires a.Lawful() && |plain| < U64_LIMIT
    ensures DecryptWhole(a, key, data).1.Ok? && DecryptWhole(a, key, data).0 == plain
            <==> IsContainer(a, key, data, plain) || (plain == [] && data == EncodeHeader(0))
  {
    if nonces: nat -> Nonce :| data == ContainerOf(a, key, nonces, plain) {
      RoundTrip(a, key, nonces, plain, []);
    }
    if data == EncodeHeader(0) {
      EncodedHeaderParses(data, 0);
    }
    if DecryptWhole(a, key, data).1.Ok? {
      DecryptedIsContainer(a, key, data);
    }
  }

  lemma EmptyBodyIsStored(a: Aead, key: Key, body: bytes)
    requires a.Lawful()
    requires OpenOne(a, key, body, 0).error == None && OpenOne(a, key, body, 0).rest == []
    ensures body == StoredChunk(a, key, NoncesOf(body)(0), [])
  {
    assert body[..StoredChunkLen(0)] == body;
    DecryptChunkInverse(a, key, body, []);
    assert body[0 * FULL_STORED..0 * FULL_STORED + NONCE_LEN] == body[..NONCE_LEN];
  }

  // ---------- A slice is a slice of the whole ----------

  // The bytes of `out`, which starts at offset `off`, that lie in [start, end).
  function Clip(out: bytes, off: nat, start: nat, end: nat): bytes
    requires start <= end
  {
    out[Min(Max(start - off, 0), |out|)..Min(Max(end - off, 0), |out|)]
  }

  lemma ClipSplit(p: bytes, q: bytes, off: nat, start: nat, end: nat)
    requires start <= end
    ensures Clip(p + q, off, start, end) == Clip(p, off, start, end) + Clip(q, off + |p|, start, end)
  {
    SliceOfJoined(p, q, Min(Max(start - off, 0), |p + q|), Min(Max(end - off, 0), |p + q|));
  }

  lemma SliceOfJoined(p: bytes, q: bytes, i: nat, j: nat)
    requires i <= j <= |p + q|
    ensures (p + q)[i..j] == p[Min(i, |p|)..Min(j, |p|)] + q[Max(i - |p|, 0)..Max(j - |p|, 0)]
  {
    var left, right := p[Min(i, |p|)..Min(j, |p|)], q[Max(i - |p|, 0)..Max(j - |p|, 0)];
    assert |left| + |right| == j - i;
    forall k | 0 <= k < j - i ensures (p + q)[i..j][k] == (left + right)[k] {
      assert (p + q)[i..j][k] == (p + q)[i + k];
      if i + k < |p| {
        assert left[k] == p[i + k];
      } else {
        assert right[k - |left|] == q[i + k - |p|];
      }
    }
  }

  // The first chunk's part in front of the parts of the later chunks.
  lemma RangeFront(
      a: Aead, key: Key, body: bytes, off: nat, plainLen: nat, start: nat, end: nat, p: bytes, later: bytes)
    requires a.Lawful() && start < end && off < plainLen
    requires |p| == Min(plainLen - off, PLAINTEXT_CHUNK_LEN) && |body| >= StoredChunkLen(|p|)
    requires DecryptChunk(a, key, body[..StoredChunkLen(|p|)]) == Ok(p)
    requires OpenRange(a, key, body[StoredChunkLen(|p|)..], off + |p|, plainLen, start, end)
             == Ok(Clip(later, off + |p|, start, end))
    ensures OpenRange(a, key, body, off, plainLen, start, end) == Ok(Clip(p + later, off, start, end))
  {
    ClipSplit(p, later, off, start, end);
    assert ChunkPiece(a, key, body[..StoredChunkLen(|p|)], off, start, end) == Ok(Clip(p, off, start, end));
  }

  // The chunk of a step that succeeds.
  lemma OpenedOne(a: Aead, key: Key, body: bytes, want: nat)
    requires OpenOne(a, key, body, want).error == None
    ensures var one, take := OpenOne(a, key, body, want), StoredChunkLen(want);
            |body| >= take && DecryptChunk(a, key, body[..take]) == Ok(one.out)
            && |one.out| == want && one.rest == body[take..]
  {
  }

  lemma {:induction false} RangeOfWalk(
      a: Aead, key: Key, body: bytes, off: nat, plainLen: nat, start: nat, end: nat, w: Walk)
    requires a.Lawful() && start < end && off <= plainLen
    requires w == OpenBody(a, key, body, plainLen - off) && w.error == None && w.rest == []
    ensures OpenRange(a, key, body, off, plainLen, start, end) == Ok(Clip(w.out, off, start, end))
    decreases plainLen - off
  {
    if off < plainLen {
      var want := Min(plainLen - off, PLAINTEXT_CHUNK_LEN);
      var one, later := WalkStep(a, key, body, plainLen - off, w);
      OpenedOne(a, key, body, want);
      RangeOfWalk(a, key, one.rest, off + want, plainLen, start, end, later);
      RangeFront(a, key, body, off, plainLen, start, end, one.out, later.out);
    }
  }

  // On any data that decrypts as a whole, container or not, a range gives
  // exactly that slice of the whole.
  lemma SliceRefinesWhole(a: Aead, key: Key, data: bytes, start: nat, end: nat)
    requires a.Lawful()
    requires DecryptWhole(a, key, data).1.Ok?
    ensures var (plain, r) := DecryptWhole(a, key, data);
            |plain| == r.value
            && DecryptSlice(a, key, data, start, end)
               == if start <= end <= |plain| then Ok(plain[start..end]) else Err(RangeOutOfBounds)
  {
    var (plain, r) := DecryptWhole(a, key, data);
    var body := data[HEADER_LEN..];
    if r.value > 0 {
      assert body[0 * FULL_STORED..] == body;
      OpenBodyIsStored(a, key, body, NoncesOf(body), 0, body, r.value, OpenBody(a, key, body, r.value));
      if start < end <= r.value {
        RangeOfWalk(a, key, body, 0, r.value, start, end, OpenBody(a, key, body, r.value));
      }
    }
    if start == end <= |plain| {
      assert plain[start..end] == [];
    }
  }

  lemma {:induction false} RangeErrors(a: Aead, key: Key, cursor: bytes, off: nat, plainLen: nat, start: nat, end: nat)
    requires a.Lawful() && start < end
    ensures var r := OpenRange(a, key, cursor, off, plainLen, start, end);
            r.Err? ==> r.error == Truncated || r.error == CryptoError.Decrypt
    decreases plainLen - off
  {
    if off < plainLen {
      var want := Min(plainLen - off, PLAINTEXT_CHUNK_LEN);
      if |cursor| >= StoredChunkLen(want) {
        RangeErrors(a, key, cursor[StoredChunkLen(want)..], off + want, plainLen, start, end);
      }
    }
  }

  // A slice is out of bounds exactly when the header says so, whatever the body.
  lemma OutOfBoundsExactly(a: Aead, key: Key, data: bytes, start: nat, end: nat)
    requires a.Lawful()
    ensures DecryptSlice(a, key, data, start, end) == Err(RangeOutOfBounds)
            <==> ParseHeader(data).Ok? && !(start <= end <= ParseHeader(data).value)
  {
    if ParseHeader(data).Ok? && start < end {
      RangeErrors(a, key, data[HEADER_LEN..], 0, ParseHeader(data).value, start, end);
    }
  }

  // ---------- Damage ----------

  lemma PrefixCases(chunk: bytes, later: bytes, k: nat)
    requires k <= |chunk + later|
    ensures k >= |chunk| ==> (chunk + later)[..k][..|chunk|] == chunk
                             && (chunk + later)[..k][|chunk|..] == later[..k - |chunk|]
  {
  }

  lemma {:induction false} CutBody(a: Aead, key: Key, nonces: nat -> Nonce, i: nat, plain: bytes, k: nat)
    requires a.Lawful() && k < |StoredFrom(a, key, nonces, i, plain)|
    ensures var w := OpenBody(a, key, StoredFrom(a, key, nonces, i, plain)[..k], |plain|);
            w.error == Some(Truncated) && w.out <= plain
    decreases |plain|
  {
    var n := Min(|plain|, PLAINTEXT_CHUNK_LEN);
    var chunk, later := StoredChunk(a, key, nonces(i), plain[..n]), StoredFrom(a, key, nonces, i + 1, plain[n..]);
    StoredChunkDecrypts(a, key, nonces(i), plain[..n]);
    PrefixCases(chunk, later, k);
    if k >= |chunk| {
      CutBody(a, key, nonces, i + 1, plain[n..], k - |chunk|);
      var w := OpenBody(a, key, later[..k - |chunk|], |plain| - n);
      assert plain == plain[..n] + plain[n..];
    }
  }

  // A container cut short never decrypts as a whole, and what was written by
  // then is a prefix of the plaintext. The one exception is the empty file cut
  // right after its header.
  lemma CutContainer(a: Aead, key: Key, nonces: nat -> Nonce, plain: bytes, k: nat)
    requires a.Lawful() && |plain| < U64_LIMIT && k < |ContainerOf(a, key, nonces, plain)|
    ensures var (out, r) := DecryptWhole(a, key, ContainerOf(a, key, nonces, plain)[..k]);
            out <= plain && (r == Err(Truncated) <==> !(plain == [] && k == HEADER_LEN))
  {
    var c := ContainerOf(a, key, nonces, plain);
    if k >= HEADER_LEN {
      var data := c[..k];
      assert data[..HEADER_LEN] == EncodeHeader(|plain|);
      EncodedHeaderParses(data, |plain|);
      assert data[HEADER_LEN..] == StoredBody(a, key, nonces, plain)[..k - HEADER_LEN];
      if plain != [] {
        CutBody(a, key, nonces, 0, plain, k - HEADER_LEN);
      } else {
        StoredChunkDecrypts(a, key, nonces(0), []);
      }
    }
  }

  lemma {:induction false} CutRange(
      a: Aead, key: Key, nonces: nat -> Nonce, i: nat, plain: bytes, off: nat, k: nat, start: nat, end: nat)
    requires a.Lawful() && start < end && k < |StoredFrom(a, key, nonces, i, plain)|
    ensures var body := StoredFrom(a, key, nonces, i, plain)[..k];
            OpenRange(a, key, body, off, off + |plain|, start, end) == Err(Truncated)
    decreases |plain|
  {
    var n := Min(|plain|, PLAINTEXT_CHUNK_LEN);
    var chunk, later := StoredChunk(a, key, nonces(i), plain[..n]), StoredFrom(a, key, nonces, i + 1, plain[n..]);
    StoredChunkDecrypts(a, key, nonces(i), plain[..n]);
    PrefixCases(chunk, later, k);
    if k >= |chunk| {
      CutRange(a, key, nonces, i + 1, plain[n..], off + n, k - |chunk|, start, end);
    }
  }

  lemma {:induction false} ExtendedRange(
      a: Aead, key: Key, nonces: nat -> Nonce, i: nat, plain: bytes, off: nat, x: bytes, start: nat, end: nat)
    requires a.Lawful() && start < end && x != []
    ensures var body := StoredFrom(a, key, nonces, i, plain) + x;
            OpenRange(a, key, body, off, off + |plain|, start, end) == Err(Truncated)
    decreases |plain|
  {
    if plain == [] {
      assert StoredFrom(a, key, nonces, i, plain) + x == x;
    } else {
      var n := Min(|plain|, PLAINTEXT_CHUNK_LEN);
      var chunk, later := StoredChunk(a, key, nonces(i), plain[..n]), StoredFrom(a, key, nonces, i + 1, plain[n..]);
      StoredChunkDecrypts(a, key, nonces(i), plain[..n]);
      var data := StoredFrom(a, key, nonces, i, plain) + x;
      assert data[..|chunk|] == chunk && data[|chunk|..] == later + x;
      ExtendedRange(a, key, nonces, i + 1, plain[n..], off + n, x, start, end);
    }
  }

  // Damage by cutting or extending is noticed by every non-empty in-bounds
  // range, even where the damage lies outside the chunks the range touches.
  lemma DamagedSliceIsTruncated(
      a: Aead, key: Key, nonces: nat -> Nonce, plain: bytes, data: bytes, start: nat, end: nat)
    requires a.Lawful() && start < end <= |plain| < U64_LIMIT
    requires data < ContainerOf(a, key, nonces, plain) || ContainerOf(a, key, nonces, plain) < data
    ensures DecryptSlice(a, key, data, start, end) == Err(Truncated)
  {
    var c := ContainerOf(a, key, nonces, plain);
    if c < data {
      var x := data[|c|..];
      assert data == c + x;
      ContainerParts(a, key, nonces, plain, x);
      ExtendedRange(a, key, nonces, 0, plain, 0, x, start, end);
    } else if |data| >= HEADER_LEN {
      assert data[..HEADER_LEN] == EncodeHeader(|plain|);
      EncodedHeaderParses(data, |plain|);
      assert data[HEADER_LEN..] == StoredBody(a, key, nonces, plain)[..|data| - HEADER_LEN];
      CutRange(a, key, nonces, 0, plain, 0, |data| - HEADER_LEN, start, end);
    }
  }
}
