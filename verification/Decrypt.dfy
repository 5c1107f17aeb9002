/** Reading a container back, as a whole into a writer or as a slice. */
module Decrypt {
  import opened Wrappers
  import opened Container

  function DecryptChunk(a: Aead, key: Key, chunk: bytes): Result<bytes, CryptoError> {
    if |chunk| < SEAL_OVERHEAD || |chunk| > StoredChunkLen(PLAINTEXT_CHUNK_LEN) then Err(Truncated)
    else
      match a.open(key, chunk[..NONCE_LEN], chunk[NONCE_LEN..])
      case None => Err(CryptoError.Decrypt)
      case Some(plain) => Ok(plain)
  }

  // A chunk decrypts to p exactly when it is p stored under its own nonce.
  lemma DecryptChunkInverse(a: Aead, key: Key, chunk: bytes, p: bytes)
    requires a.Lawful() && |p| <= PLAINTEXT_CHUNK_LEN
    ensures DecryptChunk(a, key, chunk) == Ok(p)
            <==> |chunk| >= NONCE_LEN && chunk == StoredChunk(a, key, chunk[..NONCE_LEN], p)
    ensures DecryptChunk(a, key, chunk) == Ok(p) ==> |chunk| == StoredChunkLen(|p|)
  {
    if |chunk| >= NONCE_LEN {
      assert chunk == chunk[..NONCE_LEN] + chunk[NONCE_LEN..];
      if chunk == StoredChunk(a, key, chunk[..NONCE_LEN], p) {
        assert chunk[NONCE_LEN..] == a.seal(key, chunk[..NONCE_LEN], p);
      }
    }
  }

  lemma StoredChunkDecrypts(a: Aead, key: Key, nonce: Nonce, p: bytes)
    requires a.Lawful() && |p| <= PLAINTEXT_CHUNK_LEN
    ensures |StoredChunk(a, key, nonce, p)| == StoredChunkLen(|p|)
    ensures DecryptChunk(a, key, StoredChunk(a, key, nonce, p)) == Ok(p)
  {
    var chunk := StoredChunk(a, key, nonce, p);
    assert chunk[..NONCE_LEN] == nonce;
    DecryptChunkInverse(a, key, chunk, p);
  }

  // No stored chunk opens to a plaintext of another length.
  lemma DecryptedLength(a: Aead, key: Key, chunk: bytes)
    requires a.Lawful() && DecryptChunk(a, key, chunk).Ok?
    ensures |chunk| == StoredChunkLen(|DecryptChunk(a, key, chunk).value|)
  {
    assert a.open(key, chunk[..NONCE_LEN], chunk[NONCE_LEN..]).Some?;
  }

  // Which chunks are refused as Truncated, and which fail to open.
  lemma ChunkErrors(a: Aead, key: Key, chunk: bytes)
    ensures DecryptChunk(a, key, chunk) == Err(Truncated)
            <==> |chunk| < StoredChunkLen(0) || |chunk| > FULL_STORED
    ensures DecryptChunk(a, key, chunk).Err? && DecryptChunk(a, key, chunk).error != Truncated ==>
      DecryptChunk(a, key, chunk).error == CryptoError.Decrypt
      && a.open(key, chunk[..NONCE_LEN], chunk[NONCE_LEN..]).None?
  {
  }

  // ---------- The whole file ----------

  // What a walk over the body yields: the plaintext written, the bytes not
  // consumed, and the error that ended it.
  datatype Walk = Walk(out: bytes, rest: bytes, error: Option<CryptoError>)

  function OpenOne(a: Aead, key: Key, body: bytes, want: nat): Walk {
    var take := StoredChunkLen(want);
    if |body| < take then Walk([], body, Some(Truncated))
    else
      match DecryptChunk(a, key, body[..take])
      case Err(e) => Walk([], body[take..], Some(e))
      case Ok(plain) =>
        if |plain| != want then Walk([], body[take..], Some(Truncated)) else Walk(plain, body[take..], None)
  }

  function OpenBody(a: Aead, key: Key, body: bytes, remaining: nat): Walk
    decreases remaining
  {
    if remaining == 0 then Walk([], body, None)
    else
      var want := Min(remaining, PLAINTEXT_CHUNK_LEN);
      var one := OpenOne(a, key, body, want);
      if one.error.Some? then one
      else
        var more := OpenBody(a, key, one.rest, remaining - want);
        more.(out := one.out + more.out)
  }

  function OpenContainer(a: Aead, key: Key, body: bytes, plainLen: nat): Walk {
    if plainLen > 0 then OpenBody(a, key, body, plainLen)
    else if body == [] then Walk([], [], None)
    else OpenOne(a, key, body, 0)
  }

  function Outcome(w: Walk, plainLen: nat): Result<nat, CryptoError> {
    if w.error.Some? then Err(w.error.value) else if w.rest != [] then Err(Truncated) else Ok(plainLen)
  }

  // The bytes written and the result returned for a whole container.
  function DecryptWhole(a: Aead, key: Key, data: bytes): (bytes, Result<nat, CryptoError>) {
    match ParseHeader(data)
    case Err(e) => ([], Err(e))
    case Ok(plainLen) =>
      var w := OpenContainer(a, key, data[HEADER_LEN..], plainLen);
      (w.out, Outcome(w, plainLen))
  }

  // A byte sink. One that may fail can do so in any call, after taking the first
  // `taken` bytes it was given.
  class Writer {
    var written: bytes
    const mayFail: bool

    constructor (mayFail: bool)
      ensures written == [] && this.mayFail == mayFail
    {
      written := [];
      this.mayFail := mayFail;
    }

    method WriteAll(chunk: bytes) returns (r: Result<(), string>, ghost taken: nat)
      modifies this
      ensures taken <= |chunk| && written == old(written) + chunk[..taken]
      ensures if r.Ok? then taken == |chunk| else mayFail
    {
      if * {
        if mayFail {
          var n :| 0 <= n <= |chunk|;
          written := written + chunk[..n];
          return Err("write failed"), n;
        }
      }
      written := written + chunk;
      assert chunk[..|chunk|] == chunk;
      r, taken := Ok(()), |chunk|;
    }
  }

  // What the loop still has to do with `remaining` plaintext bytes to come.
  function Unread(a: Aead, key: Key, body: bytes, plainLen: nat, remaining: nat): Walk {
    if plainLen == 0 then OpenContainer(a, key, body, 0) else OpenBody(a, key, body, remaining)
  }

  // One turn of the loop: the chunk's plaintext, then the rest of the walk.
  lemma UnreadStep(a: Aead, key: Key, body: bytes, plainLen: nat, remaining: nat)
    requires remaining > 0 || (plainLen == 0 && body != [])
    requires remaining <= plainLen
    ensures var want := Min(remaining, PLAINTEXT_CHUNK_LEN);
            var take := StoredChunkLen(want);
            var todo := Unread(a, key, body, plainLen, remaining);
            if |body| < take then todo == Walk([], body, Some(Truncated))
            else
              var plain := DecryptChunk(a, key, body[..take]);
              if plain.Err? then todo.out == [] && todo.error == Some(plain.error)
              else if |plain.value| != want then todo.out == [] && todo.error == Some(Truncated)
              else
                var later := if plainLen == 0 then Walk([], body[take..], None)
                             else Unread(a, key, body[take..], plainLen, remaining - want);
                todo == later.(out := plain.value + later.out)
  {
    if plainLen == 0 && |body| >= StoredChunkLen(0) && DecryptChunk(a, key, body[..StoredChunkLen(0)]).Ok? {
      var p := DecryptChunk(a, key, body[..StoredChunkLen(0)]).value;
      assert p + [] == p;
    }
  }

  // The part of the output that a failing write leaves behind.
  lemma PartWritten(before: bytes, w: bytes, plain: bytes, later: bytes, n: nat)
    requires n <= |plain|
    ensures (before + w) + plain[..n] == before + (w + (plain + later))[..|w| + n]
  {
    assert (w + (plain + later))[..|w| + n] == w + plain[..n];
    Regroup(before, w, plain[..n]);
  }

  // The chunk loop over the body; `taken` bytes of the output reach the writer.
  method WriteBody(a: Aead, key: Key, data: bytes, plainLen: nat, writer: Writer)
    returns (r: Result<nat, CryptoError>, ghost taken: nat)
    modifies writer
    ensures var w := OpenContainer(a, key, data, plainLen);
            taken <= |w.out| && writer.written == old(writer.written) + w.out[..taken]
            && (if r.Err? && r.error.Io? then writer.mayFail else taken == |w.out| && r == Outcome(w, plainLen))
  {
    var body := data;
    var remaining: nat := plainLen;
    ghost var before, w := writer.written, [];
    ghost var whole, todo := OpenContainer(a, key, data, plainLen), OpenContainer(a, key, data, plainLen);
    assert w + todo.out == todo.out;
    while remaining > 0 || (plainLen == 0 && body != [])
      invariant remaining <= plainLen
      invariant writer.written == before + w
      invariant todo == Unread(a, key, body, plainLen, remaining)
      invariant whole == todo.(out := w + todo.out)
      decreases remaining
    {
      UnreadStep(a, key, body, plainLen, remaining);
      var want := Min(remaining, PLAINTEXT_CHUNK_LEN);
      var take := StoredChunkLen(if plainLen == 0 then 0 else want);
      if |body| < take {
        AllWritten(w, todo);
        return Err(Truncated), |w|;
      }
      var chunk := body[..take];
      body := body[take..];
      var plain := DecryptChunk(a, key, chunk);
      if plain.Err? {
        AllWritten(w, todo);
        return Err(plain.error), |w|;
      }
      if |plain.value| != want {
        AllWritten(w, todo);
        return Err(Truncated), |w|;
      }
      todo := if plainLen == 0 then Walk([], body, None) else Unread(a, key, body, plainLen, remaining - want);
      var wrote, n := writer.WriteAll(plain.value);
      PartWritten(before, w, plain.value, todo.out, n);
      if wrote.Err? {
        return Err(Io(wrote.error)), |w| + n;
      }
      assert plain.value[..n] == plain.value;
      Regroup(w, plain.value, todo.out);
      Regroup(before, w, plain.value);
      w := w + plain.value;
      if plainLen == 0 {
        break;
      }
      remaining := remaining - want;
    }
    assert todo == Walk([], body, None);
    AllWritten(w, todo);
    taken := |w|;
    if body != [] {
      return Err(Truncated), taken;
    }
    r := Ok(plainLen);
  }

  lemma AllWritten(w: bytes, todo: Walk)
    requires todo.out == []
    ensures (w + todo.out)[..|w|] == w && w + todo.out == w
  {
  }

  /** Decrypts a container into the writer. With a writer that cannot fail the
      bytes written and the result are those of DecryptWhole. A writer that can
      adds its own errors, and then holds the first `taken` of those bytes. */
  method DecryptToWriter(a: Aead, key: Key, data: bytes, writer: Writer)
    returns (r: Result<nat, CryptoError>, ghost taken: nat)
    modifies writer
    ensures var (out, outcome) := DecryptWhole(a, key, data);
            taken <= |out| && writer.written == old(writer.written) + out[..taken]
            && (if r.Err? && r.error.Io? then writer.mayFail else taken == |out| && r == outcome)
  {
    var header := ParseHeader(data);
    if header.Err? {
      return Err(header.error), 0;
    }
    r, taken := WriteBody(a, key, data[HEADER_LEN..], header.value, writer);
  }

  // ---------- A slice ----------

  // The part of a chunk at plaintext offset `off` that lies in [start, end).
  // Chunks outside the range are not opened.
  function ChunkPiece(a: Aead, key: Key, chunk: bytes, off: nat, start: nat, end: nat): Result<bytes, CryptoError>
    requires a.Lawful() && start < end && |chunk| >= SEAL_OVERHEAD
  {
    var want := |chunk| - SEAL_OVERHEAD;
    if off + want > start && off < end then
      match DecryptChunk(a, key, chunk)
      case Err(e) => Err(e)
      case Ok(plain) =>
        DecryptedLength(a, key, chunk);
        Ok(plain[Max(start - off, 0)..Min(end - off, want)])
    else Ok([])
  }

  function Prepend(p: bytes, r: Result<bytes, CryptoError>): Result<bytes, CryptoError> {
    if r.Err? then r else Ok(p + r.value)
  }

  lemma PrependTwice(p: bytes, q: bytes, r: Result<bytes, CryptoError>)
    ensures Prepend(p, Prepend(q, r)) == Prepend(p + q, r)
    ensures Prepend([], r) == r
  {
    if r.Ok? {
      Regroup(p, q, r.value);
      assert [] + r.value == r.value;
    }
  }

  function OpenRange(a: Aead, key: Key, cursor: bytes, off: nat, plainLen: nat, start: nat, end: nat)
    : Result<bytes, CryptoError>
    requires a.Lawful() && start < end
    decreases plainLen - off
  {
    if off >= plainLen then if cursor == [] then Ok([]) else Err(Truncated)
    else
      var want := Min(plainLen - off, PLAINTEXT_CHUNK_LEN);
      var take := StoredChunkLen(want);
      if |cursor| < take then Err(Truncated)
      else
        var piece := ChunkPiece(a, key, cursor[..take], off, start, end);
        if piece.Err? then piece
        else Prepend(piece.value, OpenRange(a, key, cursor[take..], off + want, plainLen, start, end))
  }

  // One turn of the loop: `out` so far, in front of what is still to come.
  lemma RangeStep(a: Aead, key: Key, cursor: bytes, off: nat, plainLen: nat, start: nat, end: nat, out: bytes)
    requires a.Lawful() && start < end && off < plainLen
    ensures var want := Min(plainLen - off, PLAINTEXT_CHUNK_LEN);
            var take := StoredChunkLen(want);
            var all := Prepend(out, OpenRange(a, key, cursor, off, plainLen, start, end));
            if |cursor| < take then all == Err(Truncated)
            else
              var piece := ChunkPiece(a, key, cursor[..take], off, start, end);
              all == if piece.Err? then piece
                     else Prepend(out + piece.value,
                                  OpenRange(a, key, cursor[take..], off + want, plainLen, start, end))
  {
    var want := Min(plainLen - off, PLAINTEXT_CHUNK_LEN);
    var take := StoredChunkLen(want);
    if |cursor| >= take {
      var piece := ChunkPiece(a, key, cursor[..take], off, start, end);
      if piece.Ok? {
        PrependTwice(out, piece.value, OpenRange(a, key, cursor[take..], off + want, plainLen, start, end));
      }
    }
  }

  function DecryptSlice(a: Aead, key: Key, data: bytes, start: nat, end: nat): Result<bytes, CryptoError>
    requires a.Lawful()
  {
    match ParseHeader(data)
    case Err(e) => Err(e)
    case Ok(plainLen) =>
      if start > end || end > plainLen then Err(RangeOutOfBounds)
      else if start == end then Ok([])
      else OpenRange(a, key, data[HEADER_LEN..], 0, plainLen, start, end)
  }

  // The loop of DecryptRange, once the header and the bounds are checked.
  method CollectRange(a: Aead, key: Key, body: bytes, plainLen: nat, start: nat, end: nat)
    returns (r: Result<bytes, CryptoError>)
    requires a.Lawful() && start < end
    ensures r == OpenRange(a, key, body, 0, plainLen, start, end)
  {
    var out: bytes := [];
    var chunkIndex: nat, plainOff: nat := 0, 0;
    var cursor := body;
    PrependTwice([], [], OpenRange(a, key, body, 0, plainLen, start, end));
    while plainOff < plainLen
      invariant plainOff <= plainLen
      invariant plainOff < plainLen ==> plainOff == chunkIndex * PLAINTEXT_CHUNK_LEN
      invariant OpenRange(a, key, body, 0, plainLen, start, end)
                == Prepend(out, OpenRange(a, key, cursor, plainOff, plainLen, start, end))
    {
      RangeStep(a, key, cursor, plainOff, plainLen, start, end, out);
      var want := Min(plainLen - plainOff, PLAINTEXT_CHUNK_LEN);
      var take := StoredChunkLen(want);
      if |cursor| < take {
        return Err(Truncated);
      }
      var piece := TakePiece(a, key, cursor[..take], want, chunkIndex * PLAINTEXT_CHUNK_LEN, start, end);
      if piece.Err? {
        return piece;
      }
      cursor := cursor[take..];
      out := out + piece.value;
      plainOff := plainOff + want;
      chunkIndex := chunkIndex + 1;
    }
    if cursor != [] {
      return Err(Truncated);
    }
    assert out + [] == out;
    r := Ok(out);
  }

  // The part of one chunk of `want` bytes; a chunk outside the range is skipped.
  method TakePiece(a: Aead, key: Key, chunk: bytes, want: nat, chunkStart: nat, start: nat, end: nat)
    returns (r: Result<bytes, CryptoError>)
    requires a.Lawful() && start < end && |chunk| == StoredChunkLen(want)
    ensures r == ChunkPiece(a, key, chunk, chunkStart, start, end)
  {
    var chunkEnd := chunkStart + want;
    if chunkEnd > start && chunkStart < end {
      var plain := DecryptChunk(a, key, chunk);
      if plain.Err? {
        return plain;
      }
      DecryptedLength(a, key, chunk);
      var from := Max(start - chunkStart, 0);
      var to := Min(end - chunkStart, want);
      return Ok(plain.value[from..to]);
    }
    r := Ok([]);
  }

  /** Decrypts the plaintext bytes [start, end) of a container. */
  method DecryptRange(a: Aead, key: Key, data: bytes, start: nat, end: nat) returns (r: Result<bytes, CryptoError>)
    requires a.Lawful()
    ensures r == DecryptSlice(a, key, data, start, end)
  {
    var header := ParseHeader(data);
    if header.Err? {
      return Err(header.error);
    }
    var plainLen := header.value;
    if start > end || end > plainLen {
      return Err(RangeOutOfBounds);
    }
    if start == end {
      return Ok([]);
    }
    r := CollectRange(a, key, data[HEADER_LEN..], plainLen, start, end);
  }
}
